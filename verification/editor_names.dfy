/** Derived widget names over a whole editing session, undo history included. */
module EditorNames {
  import opened Basics
  import opened Decimal
  import opened EditorDocument
  import opened Canvas

  type Session = Edited<AppConfig>

  /** The document, its history and the running number behind derived names. */
  datatype Naming = Naming(session: Session, next: nat)

  datatype Edit =
    | Begins(source: EditSource)
    | Commits
    | Undoes
    | Redoes
    | Adds(kind: Kind, rect: Rect)
    | Removes(at: nat)
    | Retouches(widgets: seq<WidgetConfig>)   // moves, resizes, new settings
    | Windows(name: string, colour: Option<string>, width: int, height: int)
    | Loads(cfg: AppConfig)

  /** The window page's fields on a document: what is no colour or no size changes nothing. */
  function OnWindow(doc: AppConfig, name: string, colour: Option<string>, width: int, height: int): AppConfig {
    var sized := if width > 0 && height > 0 then doc.(width := ToUint16(width), height := ToUint16(height)) else doc;
    sized.(name := name, background := colour.GetOr(doc.background))
  }

  /** The same widgets in the same order, whatever their geometry and settings. */
  predicate SameWidgets(a: seq<WidgetConfig>, b: seq<WidgetConfig>) {
    |a| == |b| && forall i :: 0 <= i < |a| ==> a[i].id == b[i].id && a[i].kind == b[i].kind
  }

  function With(n: Naming, to: Snap): Naming {
    n.(session := n.session.(current := to))
  }

  /** A restore keeps the number ahead of what it restored. */
  function Restored(n: Naming, e: Session): Naming {
    Naming(e, Max(n.next, |e.current.doc.widgets|))
  }

  /** A file as the canvas captures it once loaded. */
  function Loaded(spell: Spelling, cfg: AppConfig): Snap {
    Snapshot(AppConfig(cfg.name, ToUint16(cfg.width), ToUint16(cfg.height), cfg.background, LoadedWidgets(cfg.widgets)),
             LoadedNames(spell, cfg.widgets))
  }

  /** A document saved and opened again is the same document, setting for setting. */
  lemma SavedReopens(spell: Spelling, s: Snap)
    requires Capturable(s)
    ensures Loaded(spell, s.doc).doc == s.doc
  {
    CapturedLoads(s.doc.widgets);
  }

  function Apply(spell: Spelling, n: Naming, edit: Edit): Naming {
    var current := n.session.current;
    match edit
    case Begins(source) => n.(session := Happen(n.session, DoBegin(source)))
    case Commits => n.(session := Happen(n.session, DoCommit))
    case Undoes => if n.session.history.undoStack == [] then n else Restored(n, Undo(n.session))
    case Redoes => if n.session.history.redoStack == [] then n else Restored(n, Redo(n.session))
    case Adds(kind, rect) =>
      if kind == UNKNOWN then n
      else
        With(n, Snapshot(current.doc.(widgets := current.doc.widgets + [WidgetConfig(kind, "", Stored(rect), DefaultConfig(kind))]),
                         current.names + [Derived(spell, kind, n.next)])).(next := n.next + 1)
    case Removes(at) =>
      if at >= |current.names| || at >= |current.doc.widgets| then n
      else
        With(n, Snapshot(current.doc.(widgets := current.doc.widgets[..at] + current.doc.widgets[at + 1..]),
                         current.names[..at] + current.names[at + 1..]))
    case Retouches(widgets) =>
      if SameWidgets(current.doc.widgets, widgets) then With(n, current.(doc := current.doc.(widgets := widgets))) else n
    case Windows(name, colour, width, height) =>
      With(n, current.(doc := OnWindow(current.doc, name, colour, width, height)))
    case Loads(cfg) =>
      Naming(Edited(Empty().(source := n.session.history.source), Loaded(spell, cfg)), |cfg.widgets|)
  }

  function ApplyAll(spell: Spelling, n: Naming, edits: seq<Edit>): Naming
    decreases |edits|
  {
    if edits == [] then n else ApplyAll(spell, Apply(spell, n, edits[0]), edits[1..])
  }

  // ------------------------------------------------------------ the invariant

  /** A widget is called by its id, or by a derived name already given out. */
  ghost predicate WellNamed(spell: Spelling, w: WidgetConfig, name: string, next: nat) {
    if w.id != "" then name == w.id else exists kind, k: nat :: k < next && name == Derived(spell, kind, k)
  }

  ghost predicate NamesOk(spell: Spelling, s: Snap, next: nat) {
    |s.names| == |s.doc.widgets| && forall i :: 0 <= i < |s.names| ==> WellNamed(spell, s.doc.widgets[i], s.names[i], next)
  }

  ghost predicate AllNamesOk(spell: Spelling, ss: seq<Snap>, next: nat) {
    forall i :: 0 <= i < |ss| ==> NamesOk(spell, ss[i], next)
  }

  ghost predicate Inv(spell: Spelling, n: Naming) {
    && NamesOk(spell, n.session.current, n.next)
    && AllNamesOk(spell, n.session.history.undoStack, n.next)
    && AllNamesOk(spell, n.session.history.redoStack, n.next)
    && (n.session.history.pending.Some? ==> NamesOk(spell, n.session.history.pending.value, n.next))
  }

  lemma NamesOkMore(spell: Spelling, s: Snap, next: nat, more: nat)
    requires NamesOk(spell, s, next) && next <= more
    ensures NamesOk(spell, s, more)
  {
    forall i | 0 <= i < |s.names|
      ensures WellNamed(spell, s.doc.widgets[i], s.names[i], more)
    {
      assert WellNamed(spell, s.doc.widgets[i], s.names[i], next);
    }
  }

  lemma InvMore(spell: Spelling, n: Naming, more: nat)
    requires Inv(spell, n) && n.next <= more
    ensures Inv(spell, n.(next := more))
  {
    forall s | NamesOk(spell, s, n.next)
      ensures NamesOk(spell, s, more)
    {
      NamesOkMore(spell, s, n.next, more);
    }
  }

  lemma {:induction false} LoadedNamesOk(spell: Spelling, cfg: AppConfig, ws: seq<WidgetConfig>)
    ensures NamesOk(spell, Snapshot(cfg.(widgets := LoadedWidgets(ws)), LoadedNames(spell, ws)), |ws|)
    decreases |ws|
  {
    if ws != [] {
      var index := |ws| - 1;
      LoadedNamesOk(spell, cfg, ws[..index]);
      var before := Snapshot(cfg.(widgets := LoadedWidgets(ws[..index])), LoadedNames(spell, ws[..index]));
      NamesOkMore(spell, before, index, |ws|);
      if ws[index].kind != UNKNOWN {
        assert WellNamed(spell, LoadedWidget(ws[index]), ObjectName(spell, ws[index].kind, ws[index].id, index), |ws|);
      }
    }
  }

  lemma AddKeeps(spell: Spelling, n: Naming, kind: Kind, rect: Rect)
    requires Inv(spell, n)
    ensures Inv(spell, Apply(spell, n, Adds(kind, rect)))
  {
    if kind != UNKNOWN {
      InvMore(spell, n, n.next + 1);
      assert WellNamed(spell, WidgetConfig(kind, "", Stored(rect), DefaultConfig(kind)), Derived(spell, kind, n.next), n.next + 1);
    }
  }

  lemma RestoreKeeps(spell: Spelling, n: Naming, e: Session)
    requires Inv(spell, n) && (e == Undo(n.session) || e == Redo(n.session))
    ensures Inv(spell, Restored(n, e))
  {
    InvMore(spell, n.(session := e), Max(n.next, |e.current.doc.widgets|));
  }

  lemma RetouchKeeps(spell: Spelling, n: Naming, widgets: seq<WidgetConfig>)
    requires Inv(spell, n)
    ensures Inv(spell, Apply(spell, n, Retouches(widgets)))
  {
    var current := n.session.current;
    if SameWidgets(current.doc.widgets, widgets) {
      forall i | 0 <= i < |widgets|
        ensures WellNamed(spell, widgets[i], current.names[i], n.next)
      {
        assert WellNamed(spell, current.doc.widgets[i], current.names[i], n.next);
      }
    }
  }

  lemma ApplyKeeps(spell: Spelling, n: Naming, edit: Edit)
    requires Inv(spell, n)
    ensures Inv(spell, Apply(spell, n, edit))
  {
    match edit {
      case Undoes => RestoreKeeps(spell, n, Undo(n.session));
      case Redoes => RestoreKeeps(spell, n, Redo(n.session));
      case Adds(kind, rect) => AddKeeps(spell, n, kind, rect);
      case Retouches(widgets) => RetouchKeeps(spell, n, widgets);
      case Loads(cfg) =>
        LoadedNamesOk(spell, cfg, cfg.widgets);
        assert NamesOk(spell, Loaded(spell, cfg), |cfg.widgets|);
      case _ =>
    }
  }

  lemma {:induction false} ApplyAllKeeps(spell: Spelling, n: Naming, edits: seq<Edit>)
    requires Inv(spell, n)
    ensures Inv(spell, ApplyAll(spell, n, edits))
    decreases |edits|
  {
    if edits != [] {
      ApplyKeeps(spell, n, edits[0]);
      ApplyAllKeeps(spell, Apply(spell, n, edits[0]), edits[1..]);
    }
  }

  // ---------------------------------------------------------------- freshness

  lemma DerivedInjective(spell: Spelling, kind: Kind, k: nat, kind': Kind, k': nat)
    requires Derived(spell, kind, k) == Derived(spell, kind', k')
    ensures k == k'
  {
    SplitAtMark(spell(kind), spell(kind'), '#', Print(k), Print(k'));
    PrintInjective(k, k');
  }

  /** Every snapshot an undo or redo can bring back, and the canvas itself. */
  ghost predicate Reachable(n: Naming, s: Snap) {
    s == n.session.current || s in n.session.history.undoStack || s in n.session.history.redoStack
  }

  lemma FreshAmong(spell: Spelling, n: Naming, kind: Kind, s: Snap, i: nat)
    requires Inv(spell, n) && Reachable(n, s) && i < |s.names|
    ensures |s.names| == |s.doc.widgets|
    ensures s.names[i] == Derived(spell, kind, n.next) <==> s.doc.widgets[i].id == Derived(spell, kind, n.next)
  {
    assert NamesOk(spell, s, n.next);
    assert WellNamed(spell, s.doc.widgets[i], s.names[i], n.next);
    if s.doc.widgets[i].id == "" {
      var kind', k: nat :| k < n.next && s.names[i] == Derived(spell, kind', k);
      if s.names[i] == Derived(spell, kind, n.next) {
        DerivedInjective(spell, kind, n.next, kind', k);
      }
    }
  }

  /** The next name an add would derive, at any point of any session, is in use on the
      canvas or in the history exactly where someone chose it as an explicit id. */
  lemma NextNameIsFresh(spell: Spelling, edits: seq<Edit>, kind: Kind, s: Snap, i: nat)
    requires var n := ApplyAll(spell, Start(), edits); Reachable(n, s) && i < |s.names|
    ensures var n := ApplyAll(spell, Start(), edits);
            && |s.names| == |s.doc.widgets|
            && (s.names[i] == Derived(spell, kind, n.next) <==> s.doc.widgets[i].id == Derived(spell, kind, n.next))
  {
    ApplyAllKeeps(spell, Start(), edits);
    FreshAmong(spell, ApplyAll(spell, Start(), edits), kind, s, i);
  }

  function Start(): Naming {
    Naming(Edited(Empty(), Snapshot(AppConfig("", 0, 0, "", []), [])), 0)
  }
}
