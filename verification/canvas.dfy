/** The editor canvas: live frames restored to a snapshot by diffing against them. */
module Canvas {
  import opened Basics
  import opened EditorDocument
  import opened Decimal

  type Kind = nat

  const UNKNOWN: Kind := 0

  /** A widget's settings; each alternative belongs to one kind of widget. */
  datatype Config = Monostate | Settings(kind: Kind, value: int)

  function DefaultConfig(kind: Kind): Config {
    Settings(kind, 0)
  }

  /** Whether the factory builds a widget of this kind from this config. */
  predicate Buildable(kind: Kind, config: Config) {
    config.Settings? && config.kind == kind
  }

  datatype Rect = Rect(x: int, y: int, width: int, height: int)

  datatype WidgetConfig = WidgetConfig(kind: Kind, id: string, rect: Rect, config: Config)

  datatype AppConfig = AppConfig(name: string, width: int, height: int, background: string, widgets: seq<WidgetConfig>)

  type Snap = Snapshot<AppConfig>

  function ToInt16(x: int): int {
    (x + 0x8000) % 0x1_0000 - 0x8000
  }

  function ToUint16(x: int): int {
    x % 0x1_0000
  }

  function Stored(r: Rect): Rect {
    Rect(ToInt16(r.x), ToInt16(r.y), ToUint16(r.width), ToUint16(r.height))
  }

  lemma StoredTwice(r: Rect)
    ensures Stored(Stored(r)) == Stored(r)
  {
  }

  /** How a kind of widget is spelled. */
  type Spelling = Kind -> string

  /** A name made up from a widget's kind and a running number. */
  function Derived(spell: Spelling, kind: Kind, index: nat): string {
    spell(kind) + ['#'] + Print(index)
  }

  /** The naming rule: an explicit id wins. */
  function ObjectName(spell: Spelling, kind: Kind, id: string, index: nat): string {
    if id != "" then id else Derived(spell, kind, index)
  }

  /** What loading makes of one entry: a config of another kind, or none, becomes the
      default of its own. */
  function LoadedWidget(w: WidgetConfig): WidgetConfig {
    w.(rect := Stored(w.rect), config := if Buildable(w.kind, w.config) then w.config else DefaultConfig(w.kind))
  }

  function LoadedWidgets(ws: seq<WidgetConfig>): seq<WidgetConfig> {
    if ws == [] then []
    else
      var last := ws[|ws| - 1];
      LoadedWidgets(ws[..|ws| - 1]) + if last.kind == UNKNOWN then [] else [LoadedWidget(last)]
  }

  /** The names of the loaded widgets. The running number counts entries, not the
      widgets made from them. */
  function LoadedNames(spell: Spelling, ws: seq<WidgetConfig>): seq<string> {
    if ws == [] then []
    else
      var index := |ws| - 1;
      LoadedNames(spell, ws[..index])
        + if ws[index].kind == UNKNOWN then [] else [ObjectName(spell, ws[index].kind, ws[index].id, index)]
  }

  /** Geometry is stored as it is exactly when it is in range. */
  lemma StoredExactly(r: Rect)
    ensures Stored(r) == r <==>
      -0x8000 <= r.x < 0x8000 && -0x8000 <= r.y < 0x8000 && 0 <= r.width < 0x1_0000 && 0 <= r.height < 0x1_0000
  {
  }

  /** Loading what was captured changes no widget. */
  lemma {:induction false} CapturedLoads(ws: seq<WidgetConfig>)
    requires forall i :: 0 <= i < |ws| ==>
               ws[i].rect == Stored(ws[i].rect) && ws[i].kind != UNKNOWN && Buildable(ws[i].kind, ws[i].config)
    ensures LoadedWidgets(ws) == ws
    decreases |ws|
  {
    if ws != [] {
      CapturedLoads(ws[..|ws| - 1]);
      SnocSplit(ws);
    }
  }

  lemma LoadedStep(spell: Spelling, ws: seq<WidgetConfig>, i: nat)
    requires i < |ws|
    ensures LoadedWidgets(ws[..i + 1]) == LoadedWidgets(ws[..i]) + if ws[i].kind == UNKNOWN then [] else [LoadedWidget(ws[i])]
    ensures LoadedNames(spell, ws[..i + 1]) ==
      LoadedNames(spell, ws[..i]) + if ws[i].kind == UNKNOWN then [] else [ObjectName(spell, ws[i].kind, ws[i].id, i)]
  {
    assert ws[..i + 1][..i] == ws[..i];
  }

  // ------------------------------------------------------------------- frames

  /** One widget on the canvas. `builds` counts how often its child was built: each
      build is a live object torn down and another started. `deleted` says that the frame
      itself was handed over for deletion. */
  class Frame {
    const kind: Kind
    var id: string
    var name: string
    var rect: Rect
    var config: Config
    var hasChild: bool
    var builds: nat
    var deleted: bool

    constructor (kind: Kind)
      ensures this.kind == kind && id == "" && config == Monostate && !hasChild && builds == 0 && !deleted
    {
      this.kind := kind;
      id, name, rect, config, hasChild, builds := "", "", Rect(0, 0, 0, 0), Monostate, false, 0;
      deleted := false;
    }

    method DeleteLater()
      modifies this`deleted
      ensures deleted
    {
      deleted := true;
    }

    /** A config of another kind is refused. */
    method ApplyConfig(config: Config) returns (applied: bool)
      modifies this`config, this`hasChild, this`builds
      ensures applied <==> Buildable(kind, config)
      ensures applied ==> this.config == config && hasChild && builds == old(builds) + 1
      ensures !applied ==> this.config == old(this.config) && hasChild == old(hasChild) && builds == old(builds)
    {
      if config == Monostate || config.kind != kind {
        return false;
      }
      ApplyStoredConfig(config);
      return true;
    }

    method ApplyStoredConfig(config: Config)
      modifies this`config, this`hasChild, this`builds
      ensures this.config == config && hasChild == Buildable(kind, config) && builds == old(builds) + 1
    {
      this.config := config;
      hasChild := Buildable(kind, config);
      builds := builds + 1;
    }

    method EnsureChild()
      modifies this`config, this`hasChild, this`builds
      ensures old(hasChild) ==> config == old(config) && hasChild && builds == old(builds)
      ensures !old(hasChild) ==> config == DefaultConfig(kind) && hasChild && builds == old(builds) + 1
    {
      if !hasChild {
        ApplyStoredConfig(DefaultConfig(kind));
      }
    }

    method SetId(id: string)
      modifies this`id, this`name
      ensures this.id == id && name == if id == "" then old(name) else id
    {
      this.id := id;
      if id != "" {
        name := id;
      }
    }

    ghost predicate Alive()
      reads this
    {
      kind != UNKNOWN && hasChild && Buildable(kind, config) && !deleted
    }

    function ToWidgetConfig(): WidgetConfig
      reads this
    {
      WidgetConfig(kind, id, Stored(rect), config)
    }
  }

  /** Whether a frame is what a snapshot's entry describes. */
  ghost predicate Shows(f: Frame, w: WidgetConfig, name: string)
    reads f
  {
    f.kind == w.kind && f.id == w.id && f.name == name && f.rect == w.rect && f.config == w.config && f.Alive()
  }

  /** A snapshot as `Capture` takes them: a name for each widget, geometry in range
      and every config one its kind can be built from. */
  ghost predicate Capturable(s: Snap) {
    && |s.names| == |s.doc.widgets|
    && s.doc.width == ToUint16(s.doc.width) && s.doc.height == ToUint16(s.doc.height)
    && forall i :: 0 <= i < |s.doc.widgets| ==>
         && s.doc.widgets[i].rect == Stored(s.doc.widgets[i].rect)
         && s.doc.widgets[i].kind != UNKNOWN
         && Buildable(s.doc.widgets[i].kind, s.doc.widgets[i].config)
  }

  function Configs(frames: seq<Frame>): (r: seq<WidgetConfig>)
    reads frames
    ensures |r| == |frames|
    ensures forall i :: 0 <= i < |frames| ==> r[i] == frames[i].ToWidgetConfig()
  {
    seq(|frames|, i requires 0 <= i < |frames| reads frames => frames[i].ToWidgetConfig())
  }

  function Names(frames: seq<Frame>): (r: seq<string>)
    reads frames
    ensures |r| == |frames|
    ensures forall i :: 0 <= i < |frames| ==> r[i] == frames[i].name
  {
    seq(|frames|, i requires 0 <= i < |frames| reads frames => frames[i].name)
  }

  // --------------------------------------------------------------- what to reuse

  /** The first frame of a name, in document order. */
  ghost function Named(frames: seq<Frame>, name: string): (f: Option<Frame>)
    reads frames
    ensures f.Some? ==> f.value in frames && f.value.name == name
    ensures f.None? ==> forall i :: 0 <= i < |frames| ==> frames[i].name != name
  {
    if frames == [] then None
    else
      var last := frames[|frames| - 1];
      match Named(frames[..|frames| - 1], name)
      case Some(f) => Some(f)
      case None => if last.name == name then Some(last) else None
  }

  /** The frames a restore can find by name. */
  ghost function Firsts(frames: seq<Frame>): set<Frame>
    reads frames
  {
    set f | f in frames && Named(frames, f.name) == Some(f)
  }

  ghost predicate NamesApart(frames: seq<Frame>)
    reads frames
  {
    forall i, j :: 0 <= i < j < |frames| ==> frames[i].name != frames[j].name
  }

  lemma {:induction false} NamedIsFirst(frames: seq<Frame>, name: string)
    ensures Named(frames, name).Some? ==>
              exists k :: 0 <= k < |frames| && frames[k] == Named(frames, name).value &&
                forall j :: 0 <= j < k ==> frames[j].name != name
    decreases |frames|
  {
    if frames != [] {
      var front := frames[..|frames| - 1];
      NamedIsFirst(front, name);
      if Named(front, name).Some? {
        var k :| 0 <= k < |front| && front[k] == Named(front, name).value && forall j :: 0 <= j < k ==> front[j].name != name;
        assert frames[k] == front[k] && forall j :: 0 <= j < k ==> frames[j] == front[j];
      } else {
        assert forall j :: 0 <= j < |frames| - 1 ==> frames[j] == front[j];
      }
    }
  }

  /** Every frame can be found by name exactly when no two share one. */
  lemma FirstsAreAll(frames: seq<Frame>)
    requires forall i, j :: 0 <= i < j < |frames| ==> frames[i] != frames[j]
    ensures (forall f :: f in frames ==> f in Firsts(frames)) <==> NamesApart(frames)
  {
    forall i | 0 <= i < |frames|
      ensures frames[i] in Firsts(frames) <==> forall j :: 0 <= j < i ==> frames[j].name != frames[i].name
    {
      NamedIsFirst(frames, frames[i].name);
    }
  }

  ghost predicate IsLive(live: map<string, Frame>, frames: seq<Frame>)
    reads frames
  {
    forall n :: (n in live <==> Named(frames, n).Some?) && (n in live ==> live[n] == Named(frames, n).value)
  }

  datatype Plan = Plan(reuse: seq<Option<Frame>>, configs: map<Frame, Config>, builds: map<Frame, nat>)

  /** The live frame a restore puts the i-th widget of a snapshot on, if any: the
      first of its name on the canvas, when the kinds match and no earlier widget
      of the snapshot has the name. */
  ghost function Reused(frames: seq<Frame>, s: Snap, i: nat): Option<Frame>
    requires i < |s.names| == |s.doc.widgets|
    reads frames
  {
    match Named(frames, s.names[i])
    case Some(f) => if f.kind == s.doc.widgets[i].kind && s.names[i] !in s.names[..i] then Some(f) else None
    case None => None
  }

  /** What the restore found: for each widget the frame to reuse, and each live
      frame's config and build count. */
  ghost function PlanFor(frames: seq<Frame>, s: Snap): (plan: Plan)
    requires |s.names| == |s.doc.widgets|
    reads frames
  {
    Plan(seq(|s.names|, i requires 0 <= i < |s.names| reads frames => Reused(frames, s, i)),
         map f | f in frames :: f.config, map f | f in frames :: f.builds)
  }

  // ------------------------------------------------------------------- canvas

  class Canvas {
    const spell: Spelling
    var items: seq<Frame>
    var windowName: string
    var width: int
    var height: int
    var background: string
    var nextNameIndex: nat
    var selected: Frame?

    ghost predicate Valid()
      reads this, items
    {
      && (forall i, j :: 0 <= i < j < |items| ==> items[i] != items[j])
      && (forall i :: 0 <= i < |items| ==> items[i].Alive())
    }

    constructor (spell: Spelling)
      ensures Valid() && items == [] && nextNameIndex == 0 && selected == null && this.spell == spell
    {
      this.spell := spell;
      items, windowName, width, height, background, nextNameIndex, selected := [], "", 0, 0, "", 0, null;
    }

    function Capture(): Snap
      reads this, items
    {
      Snapshot(AppConfig(windowName, ToUint16(width), ToUint16(height), background, Configs(items)), Names(items))
    }

    lemma CaptureIsCapturable()
      requires Valid()
      ensures Capturable(Capture())
    {
      var s := Capture();
      forall i | 0 <= i < |s.doc.widgets|
        ensures s.doc.widgets[i].rect == Stored(s.doc.widgets[i].rect) && s.doc.widgets[i].kind != UNKNOWN
        ensures Buildable(s.doc.widgets[i].kind, s.doc.widgets[i].config)
      {
        assert s.doc.widgets[i] == items[i].ToWidgetConfig();
        StoredTwice(items[i].rect);
      }
    }

    /** Adding at the end adds at the end of what is captured. */
    lemma CaptureAppend(frames: seq<Frame>, frame: Frame)
      ensures Configs(frames + [frame]) == Configs(frames) + [frame.ToWidgetConfig()]
      ensures Names(frames + [frame]) == Names(frames) + [frame.name]
    {
    }

    /** A palette drop or an agent's add: the widget's own defaults under the next
        derived name. */
    method AddWidget(kind: Kind, rect: Rect) returns (frame: Frame?)
      requires Valid()
      modifies this
      ensures Valid()
      ensures kind == UNKNOWN ==> frame == null && Capture() == old(Capture()) && nextNameIndex == old(nextNameIndex)
      ensures kind != UNKNOWN ==>
        && frame != null && fresh(frame) && items == old(items) + [frame] && selected == frame
        && nextNameIndex == old(nextNameIndex) + 1
        && Capture() == old(Capture()).(
             doc := old(Capture()).doc.(widgets := old(Capture()).doc.widgets + [WidgetConfig(kind, "", Stored(rect), DefaultConfig(kind))]),
             names := old(Capture()).names + [Derived(spell, kind, old(nextNameIndex))])
    {
      if kind == UNKNOWN {
        return null;
      }
      var added := NewFrame(kind, ObjectName(spell, kind, "", nextNameIndex), rect);
      nextNameIndex := nextNameIndex + 1;
      CaptureAppend(items, added);
      items := items + [added];
      selected := added;
      frame := added;
    }

    method NewFrame(kind: Kind, name: string, rect: Rect) returns (frame: Frame)
      requires kind != UNKNOWN
      ensures fresh(frame) && frame.Alive() && frame.name == name
      ensures frame.ToWidgetConfig() == WidgetConfig(kind, "", Stored(rect), DefaultConfig(kind))
    {
      frame := new Frame(kind);
      frame.EnsureChild();
      frame.name := name;
      frame.rect := rect;
    }

    /** Changing one frame changes one entry of what is captured. */
    twostate lemma CaptureChanged(at: nat)
      requires at < |old(items)| && items == old(items) && Names(items) == old(Names(items))
      requires forall i :: 0 <= i < |items| && i != at ==> items[i].ToWidgetConfig() == old(items[i].ToWidgetConfig())
      ensures Configs(items) == old(Configs(items))[at := items[at].ToWidgetConfig()]
    {
    }

    /** A drag or an agent's move or resize: one frame's geometry. */
    method PlaceFrame(frame: Frame, rect: Rect, ghost at: nat)
      requires Valid() && at < |items| && items[at] == frame
      modifies frame`rect
      ensures Valid() && frame.builds == old(frame.builds)
      ensures Names(items) == old(Names(items))
      ensures Configs(items) == old(Configs(items))[at := old(Configs(items))[at].(rect := Stored(rect))]
    {
      frame.rect := rect;
      CaptureChanged(at);
    }

    /** New settings for one frame, unless they are another kind's. */
    method ConfigureFrame(frame: Frame, config: Config, ghost at: nat) returns (applied: bool)
      requires Valid() && at < |items| && items[at] == frame
      modifies frame`config, frame`hasChild, frame`builds
      ensures Valid() && (applied <==> Buildable(frame.kind, config))
      ensures Names(items) == old(Names(items))
      ensures Configs(items) ==
        if applied then old(Configs(items))[at := old(Configs(items))[at].(config := config)] else old(Configs(items))
    {
      applied := frame.ApplyConfig(config);
      CaptureChanged(at);
    }

    /** The window page: a colour that is none, and a size that is none, change nothing. */
    method SetWindow(name: string, colour: Option<string>, width: int, height: int)
      requires Valid()
      modifies this`windowName, this`background, this`width, this`height
      ensures Valid() && Configs(items) == old(Configs(items)) && Names(items) == old(Names(items))
      ensures windowName == name && background == colour.GetOr(old(background))
      ensures (this.width, this.height) == if width > 0 && height > 0 then (width, height) else old((this.width, this.height))
    {
      windowName := name;
      if colour.Some? {
        background := colour.value;
      }
      if width > 0 && height > 0 {
        this.width, this.height := width, height;
      }
    }

    method RemoveFrame(frame: Frame) returns (removed: bool)
      requires Valid()
      modifies this`items, this`selected, frame`deleted
      ensures Valid() && nextNameIndex == old(nextNameIndex)
      ensures removed <==> frame in old(items)
      ensures !removed ==> items == old(items) && frame.deleted == old(frame.deleted)
      ensures removed ==> frame.deleted && frame !in items
      ensures forall at :: 0 <= at < |old(items)| && old(items)[at] == frame ==> items == old(items)[..at] + old(items)[at + 1..]
      ensures selected == if removed && old(selected) == frame then null else old(selected)
    {
      var at := 0;
      while at < |items| && items[at] != frame
        invariant 0 <= at <= |items| && frame !in items[..at]
      {
        at := at + 1;
      }
      if at == |items| {
        return false;
      }
      items := items[..at] + items[at + 1..];
      if selected == frame {
        selected := null;
      }
      frame.DeleteLater();
      return true;
    }

    method LoadFrame(w: WidgetConfig, name: string) returns (frame: Frame)
      requires w.kind != UNKNOWN
      ensures fresh(frame) && frame.Alive() && frame.name == name && frame.ToWidgetConfig() == LoadedWidget(w)
    {
      frame := new Frame(w.kind);
      frame.SetId(w.id);
      frame.name := name;
      var applied := frame.ApplyConfig(w.config);
      frame.EnsureChild();
      frame.rect := w.rect;
    }

    /** One entry of a file: skipped if its kind is unknown, else a frame at the end. */
    method LoadEntry(w: WidgetConfig, index: nat)
      requires Valid()
      modifies this`items
      ensures Valid() && forall f :: f in items ==> f in old(items) || fresh(f)
      ensures Configs(items) == old(Configs(items)) + if w.kind == UNKNOWN then [] else [LoadedWidget(w)]
      ensures Names(items) == old(Names(items)) + if w.kind == UNKNOWN then [] else [ObjectName(spell, w.kind, w.id, index)]
    {
      if w.kind != UNKNOWN {
        var frame := LoadFrame(w, ObjectName(spell, w.kind, w.id, index));
        CaptureAppend(items, frame);
        items := items + [frame];
      }
    }

    /** Takes every frame off the canvas. */
    method ClearAll()
      modifies this`items, this`selected, items`deleted
      ensures items == [] && selected == null
      ensures forall f :: f in old(items) ==> f.deleted
    {
      for i := 0 to |items|
        invariant items == old(items) && forall k :: 0 <= k < i ==> items[k].deleted
      {
        items[i].DeleteLater();
      }
      items, selected := [], null;
    }

    method LoadFromAppConfig(cfg: AppConfig)
      modifies this, items`deleted
      ensures forall f :: f in old(items) ==> f.deleted
      ensures forall f :: f in items ==> fresh(f)
      ensures Valid() && selected == null && nextNameIndex == |cfg.widgets|
      ensures Capture() == Snapshot(
        AppConfig(cfg.name, ToUint16(cfg.width), ToUint16(cfg.height), cfg.background, LoadedWidgets(cfg.widgets)),
        LoadedNames(spell, cfg.widgets))
    {
      ClearAll();
      nextNameIndex := |cfg.widgets|;
      windowName, width, height, background := cfg.name, cfg.width, cfg.height, cfg.background;
      LoadEntries(cfg);
    }

    method LoadEntries(cfg: AppConfig)
      requires items == []
      modifies this`items
      ensures Valid() && forall f :: f in items ==> fresh(f)
      ensures Configs(items) == LoadedWidgets(cfg.widgets) && Names(items) == LoadedNames(spell, cfg.widgets)
    {
      var index := 0;
      while index < |cfg.widgets|
        invariant 0 <= index <= |cfg.widgets|
        invariant Valid() && forall f :: f in items ==> fresh(f)
        invariant Configs(items) == LoadedWidgets(cfg.widgets[..index])
        invariant Names(items) == LoadedNames(spell, cfg.widgets[..index])
      {
        LoadedStep(spell, cfg.widgets, index);
        LoadEntry(cfg.widgets[index], index);
        index := index + 1;
      }
      assert cfg.widgets[..|cfg.widgets|] == cfg.widgets;
    }

    /** The frames by name; of two that share one the first counts. */
    method LiveFrames() returns (live: map<string, Frame>)
      ensures IsLive(live, items)
    {
      live := map[];
      for i := 0 to |items|
        invariant IsLive(live, items[..i])
      {
        assert items[..i + 1][..i] == items[..i];
        if items[i].name !in live {
          live := live[items[i].name := items[i]];
        }
      }
      assert items[..|items|] == items;
    }

    /** Restores one widget: onto the live frame of its name and kind if there is one
        left, whose child is rebuilt only if its config differs, else onto a new one. */
    method RestoreFrame(w: WidgetConfig, name: string, live: map<string, Frame>)
      returns (frame: Frame, live': map<string, Frame>)
      requires w.kind != UNKNOWN && Buildable(w.kind, w.config)
      requires name in live ==> live[name].Alive()
      modifies if name in live then {live[name]} else {}
      ensures Shows(frame, w, name)
      ensures if name in live && live[name].kind == w.kind
        then frame == live[name] && live' == live - {name}
             && frame.builds == old(live[name].builds) + if old(live[name].config) == w.config then 0 else 1
        else fresh(frame) && live' == live && frame.builds == 1 && (name in live ==> unchanged(live[name]))
    {
      live' := live;
      if name in live && live[name].kind == w.kind {
        frame := live[name];
        live' := live - {name};
        if frame.config != w.config {
          frame.ApplyStoredConfig(w.config);
        }
      } else {
        frame := new Frame(w.kind);
        frame.ApplyStoredConfig(w.config);
        frame.EnsureChild();
      }
      frame.SetId(w.id);
      frame.name := name;
      if frame.rect != w.rect {
        frame.rect := w.rect;
      }
    }

    /** Before the first widget every live frame is waiting where the plan looks. */
    lemma RestoringStarts(s: Snap, live: map<string, Frame>)
      requires Valid() && Capturable(s) && IsLive(live, items)
      ensures Restoring(s, 0, live, [], PlanFor(items, s))
      ensures LeftOver(live, Firsts(items), [])
    {
      assert forall n :: n in live ==> live[n] in Firsts(items);
      assert forall f :: f in Firsts(items) ==> f.name in live && live[f.name] == f;
    }

    /** A canvas whose frames are what the snapshot says captures as that snapshot. */
    lemma CapturesAs(s: Snap)
      requires Capturable(s) && |items| == |s.names|
      requires windowName == s.doc.name && width == s.doc.width && height == s.doc.height && background == s.doc.background
      requires forall i :: 0 <= i < |items| ==> Shows(items[i], s.doc.widgets[i], s.names[i])
      ensures Capture() == s
    {
      assert Configs(items) == s.doc.widgets;
      assert Names(items) == s.names;
    }

    /** Puts a captured state back. A snapshot without a name for each widget cannot
        come from `Capture`; it is rebuilt from scratch rather than guessed at. */
    method ApplyDocument(s: Snap)
      requires Valid() && (|s.names| == |s.doc.widgets| ==> Capturable(s))
      modifies this, items
      ensures Valid()
      ensures |s.names| == |s.doc.widgets| ==>
        && Capture() == s && |items| == |s.names|
        && (forall i :: 0 <= i < |items| ==> Kept(items[i], s, i, old(PlanFor(items, s))))
        && selected == (if old(selected) in items then old(selected) else null)
        && (forall f :: f in old(items) ==> (f.deleted <==> f !in items && f in old(Firsts(items))))
      ensures |s.names| != |s.doc.widgets| ==>
        && Configs(items) == LoadedWidgets(s.doc.widgets) && Names(items) == LoadedNames(spell, s.doc.widgets)
        && selected == null
        && (forall f :: f in old(items) ==> f.deleted && f !in items)
      ensures nextNameIndex == Max(old(nextNameIndex), |s.doc.widgets|)
    {
      if |s.names| != |s.doc.widgets| {
        var namesBefore := nextNameIndex;
        LoadFromAppConfig(s.doc);
        nextNameIndex := Max(nextNameIndex, namesBefore);
      } else {
        RestoreByDiff(s);
      }
    }

    /** Restores a snapshot by diffing. Of the frames left over, the first of each name is torn
        down: none is orphaned exactly when all frames had names of their own. */
    method RestoreByDiff(s: Snap)
      requires Valid() && Capturable(s)
      modifies this, items
      ensures |items| == |s.names|
      ensures Valid() && Capture() == s
      ensures forall i :: 0 <= i < |items| ==> Kept(items[i], s, i, old(PlanFor(items, s)))
      ensures forall f :: f in items ==> f in old(items) || fresh(f)
      ensures forall f :: f in old(items) ==> (f.deleted <==> f !in items && f in old(Firsts(items)))
      ensures (forall f :: f in old(items) ==> f in items || f.deleted) <==> old(NamesApart(items))
      ensures nextNameIndex == Max(old(nextNameIndex), |s.doc.widgets|)
      ensures selected == if old(selected) in items then old(selected) else null
    {
      ghost var plan := PlanFor(items, s);
      var rebuilt := RestoreFrames(s);
      Adopt(s, rebuilt, plan);
    }

    /** The window and the frames as the document has them. */
    method Adopt(s: Snap, rebuilt: seq<Frame>, ghost plan: Plan)
      requires Capturable(s) && |rebuilt| == |s.names|
      requires forall i :: 0 <= i < |rebuilt| ==> Kept(rebuilt[i], s, i, plan)
      requires forall j, k :: 0 <= j < k < |rebuilt| ==> rebuilt[j] != rebuilt[k]
      modifies this
      ensures Valid() && Capture() == s && items == rebuilt
      ensures nextNameIndex == Max(old(nextNameIndex), |s.doc.widgets|)
      ensures selected == if old(selected) in items then old(selected) else null
    {
      windowName, width, height, background := s.doc.name, s.doc.width, s.doc.height, s.doc.background;
      if selected != null && selected !in rebuilt {
        selected := null;
      }
      items := rebuilt;
      nextNameIndex := Max(nextNameIndex, |s.doc.widgets|);
      CapturesAs(s);
    }

    method RestoreFrames(s: Snap) returns (rebuilt: seq<Frame>)
      requires Valid() && Capturable(s)
      modifies items
      ensures |rebuilt| == |s.names|
      ensures forall i :: 0 <= i < |rebuilt| ==> Kept(rebuilt[i], s, i, old(PlanFor(items, s)))
      ensures forall j, k :: 0 <= j < k < |rebuilt| ==> rebuilt[j] != rebuilt[k]
      ensures forall f :: f in rebuilt ==> f in old(Firsts(items)) || fresh(f)
      ensures forall f :: f in items ==> (f.deleted <==> f !in rebuilt && f in old(Firsts(items)))
      ensures (forall f :: f in items ==> f in rebuilt || f.deleted) <==> old(NamesApart(items))
    {
      ghost var plan := PlanFor(items, s);
      FirstsAreAll(items);
      var live;
      rebuilt, live := RestoreAll(s);
      TearDown(live);
      assert forall i :: 0 <= i < |rebuilt| ==> rebuilt[i] !in live.Values && Kept(rebuilt[i], s, i, plan);
    }

    /** What no widget of the document claimed goes. */
    method TearDown(live: map<string, Frame>)
      modifies live.Values`deleted
      ensures forall f :: f in live.Values ==> f.deleted
    {
      var rest := live;
      while rest != map[]
        invariant forall n :: n in rest ==> n in live && rest[n] == live[n]
        invariant forall n :: n in live && n !in rest ==> live[n].deleted
        decreases |rest|
      {
        var name :| name in rest;
        rest[name].DeleteLater();
        rest := rest - {name};
      }
    }

    /** The frames in place, and the live ones left over. */
    method RestoreAll(s: Snap) returns (rebuilt: seq<Frame>, live: map<string, Frame>)
      requires Valid() && Capturable(s)
      modifies items
      ensures |rebuilt| == |s.names|
      ensures forall i :: 0 <= i < |rebuilt| ==> Kept(rebuilt[i], s, i, old(PlanFor(items, s)))
      ensures forall j, k :: 0 <= j < k < |rebuilt| ==> rebuilt[j] != rebuilt[k]
      ensures forall f :: f in rebuilt ==> f in old(Firsts(items)) || fresh(f)
      ensures LeftOver(live, old(Firsts(items)), rebuilt)
      ensures forall f :: f in items ==> !f.deleted
    {
      ghost var plan, firsts := PlanFor(items, s), Firsts(items);
      live := LiveFrames();
      RestoringStarts(s, live);
      rebuilt := [];
      for i := 0 to |s.doc.widgets|
        invariant Restoring(s, i, live, rebuilt, plan)
        invariant forall f :: f in rebuilt ==> f in firsts || fresh(f)
        invariant LeftOver(live, firsts, rebuilt)
        invariant forall f :: f in items ==> !f.deleted
      {
        live, rebuilt := RestoreNext(s, i, live, rebuilt, plan, firsts);
      }
    }

    /** One widget more in place. */
    method RestoreStep(s: Snap, i: nat, live: map<string, Frame>, rebuilt: seq<Frame>, ghost plan: Plan)
      returns (frame: Frame, live': map<string, Frame>)
      requires Capturable(s) && i < |s.names| && Restoring(s, i, live, rebuilt, plan)
      modifies live.Values
      ensures Restoring(s, i + 1, live', rebuilt + [frame], plan)
      ensures frame in live.Values || fresh(frame)
      ensures if s.names[i] in live && frame == live[s.names[i]] then live' == live - {s.names[i]}
              else live' == live && frame !in live.Values
    {
      assert OwnName(live, s.names[i]);
      frame, live' := RestoreFrame(s.doc.widgets[i], s.names[i], live);
    }

    method RestoreNext(s: Snap, i: nat, live: map<string, Frame>, rebuilt: seq<Frame>, ghost plan: Plan, ghost firsts: set<Frame>)
      returns (live': map<string, Frame>, rebuilt': seq<Frame>)
      requires Capturable(s) && i < |s.names| && Restoring(s, i, live, rebuilt, plan)
      requires LeftOver(live, firsts, rebuilt)
      modifies live.Values
      ensures Restoring(s, i + 1, live', rebuilt', plan)
      ensures LeftOver(live', firsts, rebuilt')
      ensures forall f :: f in rebuilt' ==> f in rebuilt || f in firsts || fresh(f)
      ensures forall f :: f in live.Values ==> !f.deleted
    {
      assert OwnName(live, s.names[i]);
      var frame;
      frame, live' := RestoreStep(s, i, live, rebuilt, plan);
      rebuilt' := rebuilt + [frame];
      ClaimOne(live, live', s.names[i], frame, firsts, rebuilt);
      forall f | f in live.Values
        ensures !f.deleted
      {
        var n :| n in live && live[n] == f;
        if n in live' {
          assert Waiting(live'[n], n, rebuilt', plan);
        } else {
          assert Kept(rebuilt'[i], s, i, plan);
        }
      }
    }
  }

  /** No other name leads to the frame of this one. */
  ghost predicate OwnName(live: map<string, Frame>, name: string) {
    forall n :: n in live && name in live && live[n] == live[name] ==> n == name
  }

  lemma ClaimOne(
    live: map<string, Frame>, live': map<string, Frame>, name: string, frame: Frame, firsts: set<Frame>, rebuilt: seq<Frame>)
    requires OwnName(live, name) && LeftOver(live, firsts, rebuilt)
    requires if name in live && frame == live[name] then live' == live - {name} else live' == live && frame !in live.Values
    ensures LeftOver(live', firsts, rebuilt + [frame])
  {
    forall f | f in live.Values && f !in rebuilt + [frame]
      ensures f in live'.Values
    {
      var n :| n in live && live[n] == f;
      assert n in live';
    }
    forall f | f in live'.Values
      ensures f in live.Values && f != frame
    {
      var n :| n in live' && live'[n] == f;
      assert live[n] == f;
    }
  }

  /** A frame stands for the i-th widget, and if the plan had one to reuse it is that
      very object, with its child rebuilt only if its config differed. */
  ghost predicate Kept(f: Frame, s: Snap, i: nat, plan: Plan)
    requires |s.names| == |s.doc.widgets|
    reads f
  {
    && i < |s.names| && i < |plan.reuse| && Shows(f, s.doc.widgets[i], s.names[i])
    && (plan.reuse[i].Some? ==>
          && f == plan.reuse[i].value && f in plan.configs && f in plan.builds
          && f.builds == plan.builds[f] + if plan.configs[f] == s.doc.widgets[i].config then 0 else 1)
  }

  /** A live frame no widget has claimed yet is as it was. */
  ghost predicate Waiting(f: Frame, name: string, rebuilt: seq<Frame>, plan: Plan)
    reads f
  {
    && f.name == name && f.Alive() && f !in rebuilt
    && f in plan.configs && f in plan.builds && f.config == plan.configs[f] && f.builds == plan.builds[f]
  }

  /** The frames still waiting are those no widget claimed. */
  ghost predicate LeftOver(live: map<string, Frame>, firsts: set<Frame>, rebuilt: seq<Frame>) {
    live.Values == set f | f in firsts && f !in rebuilt
  }

  /** Halfway through a restore: the first `i` widgets are in place. */
  ghost predicate Restoring(s: Snap, i: nat, live: map<string, Frame>, rebuilt: seq<Frame>, plan: Plan)
    requires |s.names| == |s.doc.widgets|
    reads rebuilt, live.Values
  {
    && i <= |s.names| == |plan.reuse| && |rebuilt| == i
    && (forall k :: 0 <= k < i ==> Kept(rebuilt[k], s, k, plan))
    && (forall j, k :: 0 <= j < k < i ==> rebuilt[j] != rebuilt[k])
    && (forall n :: n in live ==> Waiting(live[n], n, rebuilt, plan))
    && (forall k :: i <= k < |s.names| && plan.reuse[k].Some? ==>
          && s.names[k] in live && live[s.names[k]] == plan.reuse[k].value
          && plan.reuse[k].value.kind == s.doc.widgets[k].kind && s.names[k] !in s.names[..k])
  }
}
