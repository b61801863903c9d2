/** Addressing widgets by path: printing a widget's path and finding it again. */
module Locator {
  import opened Basics
  import opened SelectorText

  /** One object of the tree. `transient` windows are popups, tooltips, splash screens and
      sub-windows. */
  datatype Node =
    Node(cls: string, name: string, isWidget: bool, isWindow: bool, transient: bool, kids: seq<Node>)

  /** A widget is named by its position: the child indices that lead to it from the list of
      objects without a parent. */
  type Pos = seq<nat>

  predicate IsPos(trees: seq<Node>, pos: Pos)
    decreases |pos|, 0
  {
    pos == [] ||
    var front, i := pos[..|pos| - 1], pos[|pos| - 1];
    IsPos(trees, front) && i < |Children(trees, front)| && Children(trees, front)[i].isWidget
  }

  /** The children of a widget; the objects without a parent for the empty position. */
  function Children(trees: seq<Node>, pos: Pos): seq<Node>
    requires IsPos(trees, pos)
    decreases |pos|, 2
  {
    if pos == [] then trees else At(trees, pos).kids
  }

  function At(trees: seq<Node>, pos: Pos): Node
    requires IsPos(trees, pos) && pos != []
    decreases |pos|, 1
  {
    Children(trees, pos[..|pos| - 1])[pos[|pos| - 1]]
  }

  lemma ChildIsPos(trees: seq<Node>, p: Pos, i: nat)
    requires IsPos(trees, p) && i < |Children(trees, p)| && Children(trees, p)[i].isWidget
    ensures IsPos(trees, p + [i]) && At(trees, p + [i]) == Children(trees, p)[i]
    ensures p + [i] != [] && (p + [i])[..|p + [i]| - 1] == p
  {
    assert (p + [i])[..|p|] == p;
  }

  predicate IsWidget(trees: seq<Node>, pos: Pos) {
    pos != [] && IsPos(trees, pos)
  }

  ghost predicate AllWidgets(trees: seq<Node>, list: seq<Pos>) {
    forall j :: 0 <= j < |list| ==> IsWidget(trees, list[j])
  }

  // --------------------------------------------------------------------- roots

  /** What is left of the roots once set: a destroyed widget leaves nothing behind. */
  function Live(given: seq<Option<Pos>>, n: nat): (out: seq<Pos>)
    requires n <= |given|
  {
    if n == 0 then []
    else Live(given, n - 1) + if given[n - 1].Some? then [given[n - 1].value] else []
  }

  /** The places some positions were taken from: in order, none twice. */
  ghost predicate TakenFrom(places: seq<nat>, limit: nat) {
    && (forall j :: 0 <= j < |places| ==> places[j] < limit)
    && (forall i, j :: 0 <= i < j < |places| ==> places[i] < places[j])
  }

  /** Every root that is still alive is kept, once for each time it was set and in that order. */
  lemma {:induction false} LiveAre(given: seq<Option<Pos>>, n: nat) returns (places: seq<nat>)
    requires n <= |given|
    ensures TakenFrom(places, n) && |places| == |Live(given, n)|
    ensures forall i :: 0 <= i < n ==> (i in places <==> given[i].Some?)
    ensures forall j :: 0 <= j < |places| ==> given[places[j]] == Some(Live(given, n)[j])
  {
    places := [];
    if n > 0 {
      var before := LiveAre(given, n - 1);
      places := before;
      if given[n - 1].Some? {
        places := before + [n - 1];
        OneMorePlace(before, n - 1);
      }
    }
  }

  predicate Shown(trees: seq<Node>, pos: Pos)
    requires IsWidget(trees, pos)
  {
    At(trees, pos).isWindow && !At(trees, pos).transient
  }

  /** The real windows among the first `n` top-level widgets. */
  function Windows(trees: seq<Node>, topLevel: seq<Pos>, n: nat): (out: seq<Pos>)
    requires AllWidgets(trees, topLevel) && n <= |topLevel|
    ensures AllWidgets(trees, out)
  {
    if n == 0 then []
    else Windows(trees, topLevel, n - 1) + if Shown(trees, topLevel[n - 1]) then [topLevel[n - 1]] else []
  }

  lemma {:induction false} WindowsAre(trees: seq<Node>, topLevel: seq<Pos>, n: nat)
    requires AllWidgets(trees, topLevel) && n <= |topLevel|
    ensures forall i :: 0 <= i < n && Shown(trees, topLevel[i]) ==> topLevel[i] in Windows(trees, topLevel, n)
    ensures forall p :: p in Windows(trees, topLevel, n) ==> IsWidget(trees, p) && Shown(trees, p)
  {
    if n > 0 { WindowsAre(trees, topLevel, n - 1); }
  }

  function Filtered(list: seq<Pos>, keep: nat -> bool, n: nat): seq<Pos>
    requires n <= |list|
  {
    if n == 0 then [] else Filtered(list, keep, n - 1) + if keep(n - 1) then [list[n - 1]] else []
  }

  lemma {:induction false} FilteredAre(list: seq<Pos>, keep: nat -> bool, n: nat) returns (places: seq<nat>)
    requires n <= |list|
    ensures TakenFrom(places, n) && |places| == |Filtered(list, keep, n)|
    ensures forall i :: 0 <= i < n ==> (i in places <==> keep(i))
    ensures forall j :: 0 <= j < |places| ==> list[places[j]] == Filtered(list, keep, n)[j]
  {
    places := [];
    if n > 0 {
      var before := FilteredAre(list, keep, n - 1);
      places := before;
      if keep(n - 1) {
        places := before + [n - 1];
        OneMorePlace(before, n - 1);
      }
    }
  }

  lemma {:induction false} WindowsFilter(trees: seq<Node>, topLevel: seq<Pos>, keep: nat -> bool, n: nat)
    requires AllWidgets(trees, topLevel) && n <= |topLevel|
    requires forall i: nat :: i < |topLevel| ==> keep(i) == Shown(trees, topLevel[i])
    ensures Windows(trees, topLevel, n) == Filtered(topLevel, keep, n)
  {
    if n > 0 { WindowsFilter(trees, topLevel, keep, n - 1); }
  }

  /** Every real window is listed, in the order it was found. */
  lemma WindowsTaken(trees: seq<Node>, topLevel: seq<Pos>) returns (places: seq<nat>)
    requires AllWidgets(trees, topLevel)
    ensures TakenFrom(places, |topLevel|) && |places| == |Windows(trees, topLevel, |topLevel|)|
    ensures forall i :: 0 <= i < |topLevel| ==> (i in places <==> Shown(trees, topLevel[i]))
    ensures forall j :: 0 <= j < |places| ==> topLevel[places[j]] == Windows(trees, topLevel, |topLevel|)[j]
  {
    var keep := (i: nat) => i < |topLevel| && Shown(trees, topLevel[i]);
    WindowsFilter(trees, topLevel, keep, |topLevel|);
    places := FilteredAre(topLevel, keep, |topLevel|);
  }

  lemma OneMorePlace(before: seq<nat>, n: nat)
    requires TakenFrom(before, n)
    ensures TakenFrom(before + [n], n + 1)
    ensures forall i :: 0 <= i <= n ==> (i in before + [n] <==> i in before || i == n)
  {
  }

  method RealWindows(trees: seq<Node>, topLevel: seq<Pos>) returns (out: seq<Pos>)
    requires AllWidgets(trees, topLevel)
    ensures out == Windows(trees, topLevel, |topLevel|)
  {
    out := [];
    for i := 0 to |topLevel|
      invariant out == Windows(trees, topLevel, i)
    {
      var node := At(trees, topLevel[i]);
      if !node.isWindow || node.transient {
        continue;
      }
      out := out + [topLevel[i]];
    }
  }

  /** The roots that were set, or every real window when none were. */
  method Roots(trees: seq<Node>, given: seq<Option<Pos>>, topLevel: seq<Pos>) returns (out: seq<Pos>)
    requires AllWidgets(trees, topLevel)
    ensures given != [] ==> out == Live(given, |given|)
    ensures given == [] ==> out == Windows(trees, topLevel, |topLevel|)
  {
    if given == [] {
      out := RealWindows(trees, topLevel);
      return;
    }
    out := [];
    for i := 0 to |given|
      invariant out == Live(given, i)
    {
      if given[i].Some? {
        out := out + [given[i].value];
      }
    }
  }

  // ------------------------------------------------------------------ printing

  /** Widgets of class `cls` among the first `n` children. */
  function ClassBefore(kids: seq<Node>, cls: string, n: nat): (c: nat)
    requires n <= |kids|
    ensures c <= n
  {
    if n == 0 then 0
    else ClassBefore(kids, cls, n - 1) + if kids[n - 1].isWidget && kids[n - 1].cls == cls then 1 else 0
  }

  /** The number a child carries in a path: none when it is the only one of its class. */
  function SiblingIndex(kids: seq<Node>, i: nat): Option<nat>
    requires i < |kids|
  {
    if ClassBefore(kids, kids[i].cls, |kids|) > 1 then Some(ClassBefore(kids, kids[i].cls, i)) else None
  }

  function IndexOf(trees: seq<Node>, pos: Pos): Option<nat>
    requires IsWidget(trees, pos)
  {
    if |pos| == 1 then None else SiblingIndex(Children(trees, pos[..|pos| - 1]), pos[|pos| - 1])
  }

  function SegmentOf(trees: seq<Node>, pos: Pos): string
    requires IsWidget(trees, pos)
  {
    Segment(At(trees, pos).cls, IndexOf(trees, pos))
  }

  /** Where the walk up ends: at a window, or at a widget without a parent. */
  predicate Stops(trees: seq<Node>, pos: Pos)
    requires IsWidget(trees, pos)
  {
    |pos| == 1 || At(trees, pos).isWindow
  }

  /** The window a widget is in. */
  function Top(trees: seq<Node>, pos: Pos): (t: Pos)
    requires IsWidget(trees, pos)
    ensures IsWidget(trees, t) && Stops(trees, t) && t <= pos
  {
    if Stops(trees, pos) then pos else Top(trees, pos[..|pos| - 1])
  }

  /** From that window down to the widget. */
  function PathSegments(trees: seq<Node>, pos: Pos): (segments: seq<string>)
    requires IsWidget(trees, pos)
    ensures segments != [] && |segments| == |pos| - |Top(trees, pos)| + 1
  {
    if Stops(trees, pos) then [SegmentOf(trees, pos)]
    else PathSegments(trees, pos[..|pos| - 1]) + [SegmentOf(trees, pos)]
  }

  method SiblingIndexOf(trees: seq<Node>, pos: Pos) returns (r: Option<nat>)
    requires IsWidget(trees, pos)
    ensures r == IndexOf(trees, pos)
  {
    if |pos| == 1 {
      return None;
    }
    var siblings, self := Children(trees, pos[..|pos| - 1]), pos[|pos| - 1];
    var wanted := siblings[self].cls;
    var index, found, total: nat := 0, 0, 0;
    for i := 0 to |siblings|
      invariant index == total == ClassBefore(siblings, wanted, i)
      invariant self < i ==> found == ClassBefore(siblings, wanted, self)
    {
      if !siblings[i].isWidget || siblings[i].cls != wanted {
        continue;
      }
      if i == self {
        found := index;
      }
      index := index + 1;
      total := total + 1;
    }
    return if total > 1 then Some(found) else None;
  }

  method PathOf(trees: seq<Node>, pos: Pos) returns (path: string)
    requires IsWidget(trees, pos)
    ensures path == Join(PathSegments(trees, pos))
  {
    var segments: seq<string> := [];
    var node := pos;
    while node != []
      invariant IsPos(trees, node)
      invariant node != [] ==> PathSegments(trees, pos) == PathSegments(trees, node) + segments
      invariant node == [] ==> PathSegments(trees, pos) == segments
      decreases |node|
    {
      var segment := At(trees, node).cls;
      var index := SiblingIndexOf(trees, node);
      if index.Some? {
        segment := Segment(segment, index);
      }
      ghost var below := segments;
      segments := [segment] + segments;
      if At(trees, node).isWindow {
        break;
      }
      ConcatAssoc(if |node| == 1 then [] else PathSegments(trees, node[..|node| - 1]), [segment], below);
      node := node[..|node| - 1];
    }
    path := Join(segments);
  }

  // ----------------------------------------------------------------- resolving

  datatype Answer = Found(pos: Pos) | EmptySelector | NoSuchWidget | Ambiguous

  predicate Matches(node: Node, token: string) {
    node.isWidget && (node.name == token || node.cls == token)
  }

  /** Matches among the first `n` of some objects, which stand at the positions `at`. */
  function Kept(nodes: seq<Node>, at: seq<Pos>, token: string, n: nat): (next: seq<Pos>)
    requires n <= |nodes| == |at|
  {
    if n == 0 then []
    else Kept(nodes, at, token, n - 1) + if Matches(nodes[n - 1], token) then [at[n - 1]] else []
  }

  function Nodes(trees: seq<Node>, list: seq<Pos>): (nodes: seq<Node>)
    requires AllWidgets(trees, list)
  {
    seq(|list|, j requires 0 <= j < |list| => At(trees, list[j]))
  }

  function Below(p: Pos, n: nat): seq<Pos> {
    seq(n, i => p + [i])
  }

  function MatchingRoots(trees: seq<Node>, roots: seq<Pos>, token: string): (next: seq<Pos>)
    requires AllWidgets(trees, roots)
    ensures AllWidgets(trees, next)
  {
    KeptAre(Nodes(trees, roots), roots, token, |roots|);
    Kept(Nodes(trees, roots), roots, token, |roots|)
  }

  /** The children of `p` that match. */
  function Matching(trees: seq<Node>, p: Pos, token: string): (next: seq<Pos>)
    requires IsPos(trees, p)
    ensures AllWidgets(trees, next)
  {
    var kids := Children(trees, p);
    BelowAre(trees, p, token);
    Kept(kids, Below(p, |kids|), token, |kids|)
  }

  /** Matches under any of the first `n` candidates, in order. */
  function Narrow(trees: seq<Node>, current: seq<Pos>, token: string, n: nat): (next: seq<Pos>)
    requires AllWidgets(trees, current) && n <= |current|
    ensures AllWidgets(trees, next)
  {
    if n == 0 then [] else Narrow(trees, current, token, n - 1) + Matching(trees, current[n - 1], token)
  }

  /** What one segment leads to: the roots for the first, children after that. */
  function Next(trees: seq<Node>, current: seq<Pos>, first: bool, token: string): (next: seq<Pos>)
    requires AllWidgets(trees, current)
    ensures AllWidgets(trees, next)
  {
    if first then MatchingRoots(trees, current, token) else Narrow(trees, current, token, |current|)
  }

  /** An index picks one candidate; without one all stay. Nothing left is a failure. */
  function Picked(next: seq<Pos>, wanted: Option<nat>): (r: Option<seq<Pos>>)
    ensures r.Some? ==> r.value != [] && forall p :: p in r.value ==> p in next
  {
    if wanted.Some? then
      if wanted.value < |next| then Some([next[wanted.value]]) else None
    else if next == [] then None else Some(next)
  }

  function Advanced(trees: seq<Node>, current: seq<Pos>, first: bool, segment: string): (r: Option<seq<Pos>>)
    requires AllWidgets(trees, current)
    ensures r.Some? ==> AllWidgets(trees, r.value) && r.value != []
  {
    Picked(Next(trees, current, first, Token(segment)), WantedIndex(segment))
  }

  /** The candidates left after the segments, from some to begin with. */
  function Candidates(trees: seq<Node>, current: seq<Pos>, first: bool, segments: seq<string>): (left: Option<seq<Pos>>)
    requires AllWidgets(trees, current)
    ensures left.Some? ==> AllWidgets(trees, left.value) && (segments != [] ==> left.value != [])
    decreases |segments|
  {
    if segments == [] then Some(current)
    else
      var next := Advanced(trees, current, first, segments[0]);
      if next.None? then None else Candidates(trees, next.value, false, segments[1..])
  }

  function Resolved(trees: seq<Node>, roots: seq<Pos>, segments: seq<string>): Answer
    requires AllWidgets(trees, roots)
  {
    var last := Candidates(trees, roots, true, segments);
    if segments == [] then EmptySelector
    else if last.None? then NoSuchWidget
    else if |last.value| > 1 then Ambiguous
    else Found(last.value[0])
  }

  /** After `k` segments, `current` is what the rest of the search starts from. */
  ghost predicate Left(trees: seq<Node>, roots: seq<Pos>, segments: seq<string>, k: nat, current: seq<Pos>) {
    && k <= |segments| && AllWidgets(trees, roots) && AllWidgets(trees, current)
    && (k > 0 ==> current != [])
    && Candidates(trees, roots, true, segments) == Candidates(trees, current, k == 0, segments[k..])
  }

  lemma LeftNext(trees: seq<Node>, roots: seq<Pos>, segments: seq<string>, k: nat, current: seq<Pos>)
    requires Left(trees, roots, segments, k, current) && k < |segments|
    ensures var next := Advanced(trees, current, k == 0, segments[k]);
            if next.None? then Resolved(trees, roots, segments) == NoSuchWidget
            else Left(trees, roots, segments, k + 1, next.value)
  {
    assert segments[k..][0] == segments[k] && segments[k..][1..] == segments[k + 1..];
  }

  lemma LeftStarts(trees: seq<Node>, roots: seq<Pos>, segments: seq<string>)
    requires AllWidgets(trees, roots)
    ensures Left(trees, roots, segments, 0, roots)
  {
    assert segments[0..] == segments;
  }

  lemma LeftEnds(trees: seq<Node>, roots: seq<Pos>, segments: seq<string>, current: seq<Pos>)
    requires Left(trees, roots, segments, |segments|, current) && segments != []
    ensures current != []
    ensures Resolved(trees, roots, segments) == if |current| > 1 then Ambiguous else Found(current[0])
  {
    assert segments[|segments|..] == [];
  }

  method MatchRoots(trees: seq<Node>, roots: seq<Pos>, token: string) returns (next: seq<Pos>)
    requires AllWidgets(trees, roots)
    ensures next == MatchingRoots(trees, roots, token)
  {
    next := [];
    for i := 0 to |roots|
      invariant next == Kept(Nodes(trees, roots), roots, token, i)
    {
      var root := At(trees, roots[i]);
      if root.name == token || root.cls == token {
        next := next + [roots[i]];
      }
    }
  }

  method MatchChildren(trees: seq<Node>, current: seq<Pos>, token: string) returns (next: seq<Pos>)
    requires AllWidgets(trees, current)
    ensures next == Narrow(trees, current, token, |current|)
  {
    next := [];
    for k := 0 to |current|
      invariant next == Narrow(trees, current, token, k)
    {
      var parent := current[k];
      var children := Children(trees, parent);
      for i := 0 to |children|
        invariant next == Narrow(trees, current, token, k) + Kept(children, Below(parent, |children|), token, i)
      {
        if children[i].isWidget && (children[i].name == token || children[i].cls == token) {
          next := next + [parent + [i]];
        }
      }
    }
  }

  /** The loop body: one segment narrows the candidates, or finds nothing. */
  method Advance(trees: seq<Node>, current: seq<Pos>, first: bool, segment: string) returns (r: Option<seq<Pos>>)
    requires AllWidgets(trees, current)
    ensures r == Advanced(trees, current, first, segment)
  {
    var token, wanted := Token(segment), WantedIndex(segment);
    var next;
    if first {
      next := MatchRoots(trees, current, token);
    } else {
      next := MatchChildren(trees, current, token);
    }
    if wanted.Some? {
      if wanted.value >= |next| {
        return None;
      }
      next := [next[wanted.value]];
    }
    return if next == [] then None else Some(next);
  }

  /** One segment of the search. */
  method SearchNext(trees: seq<Node>, ghost roots: seq<Pos>, segments: seq<string>, k: nat, current: seq<Pos>)
    returns (next: Option<seq<Pos>>)
    requires k < |segments| && Left(trees, roots, segments, k, current)
    ensures next.None? ==> Resolved(trees, roots, segments) == NoSuchWidget
    ensures next.Some? ==> Left(trees, roots, segments, k + 1, next.value)
  {
    LeftNext(trees, roots, segments, k, current);
    next := Advance(trees, current, k == 0, segments[k]);
  }

  /** The search, one segment at a time. */
  method Search(trees: seq<Node>, roots: seq<Pos>, segments: seq<string>) returns (answer: Answer)
    requires AllWidgets(trees, roots) && segments != []
    ensures answer == Resolved(trees, roots, segments)
  {
    var current := roots;
    LeftStarts(trees, roots, segments);
    for k := 0 to |segments|
      invariant Left(trees, roots, segments, k, current)
    {
      var next := SearchNext(trees, roots, segments, k, current);
      if next.None? {
        return NoSuchWidget;
      }
      current := next.value;
    }
    LeftEnds(trees, roots, segments, current);
    return if |current| > 1 then Ambiguous else Found(current[0]);
  }

  method ResolvePath(trees: seq<Node>, roots: seq<Pos>, selector: string) returns (answer: Answer)
    requires AllWidgets(trees, roots)
    ensures answer == Resolved(trees, roots, SplitSkippingEmpty(selector))
  {
    var segments := SplitSkippingEmpty(selector);
    if segments == [] {
      return EmptySelector;
    }
    answer := Search(trees, roots, segments);
  }

  // -------------------------------------------------------- one list of children

  /** Children among the first `n` that match `token`. */
  function MatchesBefore(kids: seq<Node>, token: string, n: nat): (c: nat)
    requires n <= |kids|
    ensures c <= n
  {
    if n == 0 then 0 else MatchesBefore(kids, token, n - 1) + if Matches(kids[n - 1], token) then 1 else 0
  }

  /** A widget of another class that is named after `cls`. */
  predicate Impostor(node: Node, cls: string) {
    node.isWidget && node.cls != cls && node.name == cls
  }

  /** Matches beyond the class itself are exactly the impostors. */
  lemma {:induction false} ImpostorsAddUp(kids: seq<Node>, cls: string, n: nat)
    requires n <= |kids|
    ensures MatchesBefore(kids, cls, n) >= ClassBefore(kids, cls, n)
    ensures MatchesBefore(kids, cls, n) == ClassBefore(kids, cls, n) <==>
            forall i :: 0 <= i < n ==> !Impostor(kids[i], cls)
  {
    if n > 0 { ImpostorsAddUp(kids, cls, n - 1); }
  }

  lemma {:induction false} ClassGrows(kids: seq<Node>, i: nat, n: nat)
    requires i < n <= |kids| && kids[i].isWidget
    ensures ClassBefore(kids, kids[i].cls, n) > ClassBefore(kids, kids[i].cls, i)
  {
    if i < n - 1 { ClassGrows(kids, i, n - 1); }
  }

  lemma {:induction false} MatchesGrow(kids: seq<Node>, token: string, i: nat, n: nat)
    requires i <= n <= |kids|
    ensures MatchesBefore(kids, token, n) >= MatchesBefore(kids, token, i)
    ensures i < n && Matches(kids[i], token) ==> MatchesBefore(kids, token, n) > MatchesBefore(kids, token, i)
  {
    if i < n { MatchesGrow(kids, token, i, n - 1); }
  }

  /** A child's segment picks that child and no other. */
  predicate PicksItself(kids: seq<Node>, i: nat, index: Option<nat>)
    requires i < |kids|
  {
    if index.Some? then MatchesBefore(kids, kids[i].cls, i) == index.value
    else MatchesBefore(kids, kids[i].cls, |kids|) == 1
  }

  /** A child whose path goes through its parent. */
  predicate Inner(node: Node) {
    node.isWidget && !node.isWindow
  }

  /** Impostors do no harm only behind two or more widgets of the class. */
  ghost predicate ImpostorsHarmless(kids: seq<Node>) {
    forall i, j :: 0 <= i < |kids| && 0 <= j < |kids| && Inner(kids[j]) && Impostor(kids[i], kids[j].cls) ==>
      j < i && ClassBefore(kids, kids[j].cls, |kids|) > 1
  }

  lemma ChildrenPick(kids: seq<Node>)
    ensures ImpostorsHarmless(kids) <==>
            forall j :: 0 <= j < |kids| && Inner(kids[j]) ==> PicksItself(kids, j, SiblingIndex(kids, j))
  {
    forall j | 0 <= j < |kids| && Inner(kids[j])
      ensures PicksItself(kids, j, SiblingIndex(kids, j)) <==>
              forall i :: 0 <= i < |kids| && Impostor(kids[i], kids[j].cls) ==>
                j < i && ClassBefore(kids, kids[j].cls, |kids|) > 1
    {
      var cls := kids[j].cls;
      ClassGrows(kids, j, |kids|);
      ImpostorsAddUp(kids, cls, j);
      ImpostorsAddUp(kids, cls, |kids|);
    }
  }

  lemma {:induction false} OnlyMatch(kids: seq<Node>, token: string, i: nat, n: nat)
    requires i < n <= |kids| && Matches(kids[i], token)
    ensures MatchesBefore(kids, token, n) == 1 <==> forall k :: 0 <= k < n && k != i ==> !Matches(kids[k], token)
  {
    if n - 1 == i {
      NoMatch(kids, token, i);
    } else {
      OnlyMatch(kids, token, i, n - 1);
      MatchesGrow(kids, token, i, n - 1);
    }
  }

  lemma {:induction false} NoMatch(kids: seq<Node>, token: string, n: nat)
    requires n <= |kids|
    ensures MatchesBefore(kids, token, n) == 0 <==> forall k :: 0 <= k < n ==> !Matches(kids[k], token)
  {
    if n > 0 { NoMatch(kids, token, n - 1); }
  }

  // ------------------------------------------------------------- one segment

  /** The `j`th match is the object with `j` matches before it. */
  lemma {:induction false} KeptAt(nodes: seq<Node>, at: seq<Pos>, token: string, i: nat, n: nat)
    requires n <= |nodes| == |at|
    ensures |Kept(nodes, at, token, n)| == MatchesBefore(nodes, token, n)
    ensures i < n && Matches(nodes[i], token) ==>
              MatchesBefore(nodes, token, i) < |Kept(nodes, at, token, n)| &&
              Kept(nodes, at, token, n)[MatchesBefore(nodes, token, i)] == at[i]
  {
    if n > 0 { KeptAt(nodes, at, token, i, n - 1); }
  }

  /** Where the `j`th match comes from. */
  lemma {:induction false} KeptFrom(nodes: seq<Node>, at: seq<Pos>, token: string, n: nat, j: nat) returns (i: nat)
    requires n <= |nodes| == |at| && j < |Kept(nodes, at, token, n)|
    ensures i < n && Kept(nodes, at, token, n)[j] == at[i]
    ensures Matches(nodes[i], token) && MatchesBefore(nodes, token, i) == j
  {
    if j < |Kept(nodes, at, token, n - 1)| {
      i := KeptFrom(nodes, at, token, n - 1, j);
    } else {
      KeptAt(nodes, at, token, 0, n - 1);
      i := n - 1;
    }
  }

  lemma KeptAre(nodes: seq<Node>, at: seq<Pos>, token: string, n: nat)
    requires n <= |nodes| == |at|
    ensures forall j :: 0 <= j < |Kept(nodes, at, token, n)| ==> Kept(nodes, at, token, n)[j] in at
  {
  }

  lemma BelowAre(trees: seq<Node>, p: Pos, token: string)
    requires IsPos(trees, p)
    ensures var kids := Children(trees, p); AllWidgets(trees, Kept(kids, Below(p, |kids|), token, |kids|))
  {
    var kids := Children(trees, p);
    var kept := Kept(kids, Below(p, |kids|), token, |kids|);
    forall j | 0 <= j < |kept|
      ensures IsWidget(trees, kept[j])
    {
      var i := KeptFrom(kids, Below(p, |kids|), token, |kids|, j);
      ChildIsPos(trees, p, i);
    }
  }

  /** A segment printed for the object at `x` picks it, whichever of its places does it. */
  ghost predicate PicksPlace(nodes: seq<Node>, at: seq<Pos>, x: Pos, index: Option<nat>)
    requires |nodes| == |at|
  {
    exists i :: 0 <= i < |at| && at[i] == x && PicksItself(nodes, i, index)
  }

  /** A class and an index lead to exactly one place just when they pick it. */
  lemma StepPicks(nodes: seq<Node>, at: seq<Pos>, x: Pos, cls: string, index: Option<nat>)
    requires |nodes| == |at|
    requires forall i :: 0 <= i < |at| && at[i] == x ==> nodes[i].isWidget && nodes[i].cls == cls
    ensures Picked(Kept(nodes, at, cls, |at|), index) == Some([x]) <==> PicksPlace(nodes, at, x, index)
  {
    var kept, n := Kept(nodes, at, cls, |at|), |at|;
    KeptAt(nodes, at, cls, 0, n);
    if Picked(kept, index) == Some([x]) {
      var j := if index.Some? then index.value else 0;
      assert [kept[j]] == [x];
      var i := KeptFrom(nodes, at, cls, n, j);
      assert kept[j] == [x][0];
      assert PicksItself(nodes, i, index);
    }
    if i :| 0 <= i < n && at[i] == x && PicksItself(nodes, i, index) {
      KeptAt(nodes, at, cls, i, n);
      assert |kept| == 1 ==> kept == [kept[0]];
    }
  }

  // --------------------------------------------------------------- whole forest

  predicate WellNamed(kids: seq<Node>) {
    && |kids| <= INT_MAX
    && forall i :: 0 <= i < |kids| && kids[i].isWidget ==> Plain(kids[i].cls) && !Indexed(kids[i].cls)
  }

  /** Class names look like class names. */
  ghost predicate Sane(trees: seq<Node>) {
    forall p: Pos :: IsPos(trees, p) ==> WellNamed(Children(trees, p))
  }

  /** A window among the roots whose own segment picks it from them. */
  ghost predicate Listed(trees: seq<Node>, roots: seq<Pos>, t: Pos)
    requires AllWidgets(trees, roots) && IsWidget(trees, t)
  {
    PicksPlace(Nodes(trees, roots), roots, t, IndexOf(trees, t))
  }

  /** Everything in a window can be told apart: the window by its segment, and the children
      of each of its widgets, with no object name in the way of a class. */
  ghost predicate Clear(trees: seq<Node>, roots: seq<Pos>, t: Pos)
    requires AllWidgets(trees, roots) && IsWidget(trees, t)
  {
    && Listed(trees, roots, t)
    && forall p: Pos :: IsWidget(trees, p) && Top(trees, p) == t ==> ImpostorsHarmless(Children(trees, p))
  }

  ghost predicate RoundTrips(trees: seq<Node>, roots: seq<Pos>, pos: Pos)
    requires AllWidgets(trees, roots) && IsWidget(trees, pos)
  {
    Resolved(trees, roots, SplitSkippingEmpty(Join(PathSegments(trees, pos)))) == Found(pos)
  }

  /** One more segment at the end. */
  lemma {:induction false} CandidatesSnoc(trees: seq<Node>, current: seq<Pos>, first: bool, a: seq<string>, last: string)
    requires AllWidgets(trees, current)
    ensures Candidates(trees, current, first, a + [last]) ==
            var before := Candidates(trees, current, first, a);
            if before.None? then None else Advanced(trees, before.value, first && a == [], last)
    decreases |a|
  {
    if a == [] {
      assert a + [last] == [last] && [last][1..] == [];
    } else {
      assert (a + [last])[0] == a[0] && (a + [last])[1..] == a[1..] + [last];
      var next := Advanced(trees, current, first, a[0]);
      if next.Some? { CandidatesSnoc(trees, next.value, false, a[1..], last); }
    }
  }

  lemma SegmentOfReads(trees: seq<Node>, pos: Pos)
    requires Sane(trees) && IsWidget(trees, pos)
    ensures Token(SegmentOf(trees, pos)) == At(trees, pos).cls && WantedIndex(SegmentOf(trees, pos)) == IndexOf(trees, pos)
    ensures Plain(SegmentOf(trees, pos))
  {
    assert WellNamed(Children(trees, pos[..|pos| - 1]));
    SegmentReads(At(trees, pos).cls, IndexOf(trees, pos));
    SegmentPlain(At(trees, pos).cls, IndexOf(trees, pos));
  }

  lemma {:induction false} PathReadsBack(trees: seq<Node>, pos: Pos)
    requires Sane(trees) && IsWidget(trees, pos)
    ensures forall k :: 0 <= k < |PathSegments(trees, pos)| ==> Plain(PathSegments(trees, pos)[k])
    ensures SplitSkippingEmpty(Join(PathSegments(trees, pos))) == PathSegments(trees, pos)
    decreases |pos|
  {
    SegmentOfReads(trees, pos);
    if !Stops(trees, pos) {
      PathReadsBack(trees, pos[..|pos| - 1]);
    }
    SplitJoin(PathSegments(trees, pos));
  }

  /** The segments of a path single out its widget. */
  ghost predicate SingledOut(trees: seq<Node>, roots: seq<Pos>, pos: Pos)
    requires AllWidgets(trees, roots) && IsWidget(trees, pos)
  {
    var segments := PathSegments(trees, pos);
    Candidates(trees, roots, true, segments) == Some([pos])
  }

  lemma RoundTripSinglesOut(trees: seq<Node>, roots: seq<Pos>, pos: Pos)
    requires Sane(trees) && AllWidgets(trees, roots) && IsWidget(trees, pos)
    ensures RoundTrips(trees, roots, pos) <==> SingledOut(trees, roots, pos)
  {
    PathReadsBack(trees, pos);
    var segments := PathSegments(trees, pos);
    var last := Candidates(trees, roots, true, segments);
    assert last.Some? && |last.value| == 1 ==> last.value == [last.value[0]];
  }

  /** A window is found from its own path exactly when it is one of the roots and its segment
      picks it from them, whether or not it has a parent. */
  lemma WindowRoundTrips(trees: seq<Node>, roots: seq<Pos>, t: Pos)
    requires Sane(trees) && AllWidgets(trees, roots) && IsWidget(trees, t) && Stops(trees, t)
    ensures RoundTrips(trees, roots, t) <==> Listed(trees, roots, t)
  {
    RoundTripSinglesOut(trees, roots, t);
    SegmentOfReads(trees, t);
    var segments := PathSegments(trees, t);
    CandidatesSnoc(trees, roots, true, [], SegmentOf(trees, t));
    assert [] + segments == segments;
    StepPicks(Nodes(trees, roots), roots, t, At(trees, t).cls, IndexOf(trees, t));
  }

  lemma ChildPlace(trees: seq<Node>, p: Pos, i: nat, index: Option<nat>)
    requires IsPos(trees, p) && i < |Children(trees, p)|
    ensures var kids := Children(trees, p);
            PicksPlace(kids, Below(p, |kids|), p + [i], index) <==> PicksItself(kids, i, index)
  {
    var kids := Children(trees, p);
    var at := Below(p, |kids|);
    assert at[i] == p + [i];
    forall j | 0 <= j < |kids| && at[j] == p + [i]
      ensures j == i
    {
      assert at[j][|p|] == (p + [i])[|p|];
    }
  }

  /** From a parent alone, a child's segment leads to that child just when it picks it. */
  lemma StepToChild(trees: seq<Node>, p: Pos, i: nat, segment: string)
    requires IsWidget(trees, p) && i < |Children(trees, p)| && Children(trees, p)[i].isWidget
    requires Token(segment) == Children(trees, p)[i].cls
    ensures Advanced(trees, [p], false, segment) == Some([p + [i]]) <==>
            PicksItself(Children(trees, p), i, WantedIndex(segment))
  {
    var kids := Children(trees, p);
    var at := Below(p, |kids|);
    ChildPlace(trees, p, i, WantedIndex(segment));
    forall j | 0 <= j < |kids| && at[j] == p + [i]
      ensures kids[j].isWidget && kids[j].cls == kids[i].cls
    {
      assert at[j][|p|] == (p + [i])[|p|];
    }
    StepPicks(kids, at, p + [i], kids[i].cls, WantedIndex(segment));
    assert Narrow(trees, [p], kids[i].cls, 0) == [];
    assert Narrow(trees, [p], kids[i].cls, 1) == Matching(trees, p, kids[i].cls);
  }

  /** One more segment, from a parent that was singled out. */
  lemma LastStep(trees: seq<Node>, roots: seq<Pos>, before: seq<string>, p: Pos, i: nat, segment: string)
    requires AllWidgets(trees, roots) && IsWidget(trees, p) && i < |Children(trees, p)| && Children(trees, p)[i].isWidget
    requires before != [] && Candidates(trees, roots, true, before) == Some([p])
    requires Token(segment) == Children(trees, p)[i].cls
    ensures Candidates(trees, roots, true, before + [segment]) == Some([p + [i]]) <==>
            PicksItself(Children(trees, p), i, WantedIndex(segment))
  {
    CandidatesSnoc(trees, roots, true, before, segment);
    StepToChild(trees, p, i, segment);
  }

  lemma PathGrows(trees: seq<Node>, pos: Pos)
    requires IsWidget(trees, pos) && !Stops(trees, pos)
    ensures PathSegments(trees, pos) == PathSegments(trees, pos[..|pos| - 1]) + [SegmentOf(trees, pos)]
    ensures pos[..|pos| - 1] + [pos[|pos| - 1]] == pos
  {
  }

  lemma ChildSingledOut(trees: seq<Node>, roots: seq<Pos>, pos: Pos)
    requires AllWidgets(trees, roots) && IsWidget(trees, pos) && !Stops(trees, pos)
    requires Token(SegmentOf(trees, pos)) == At(trees, pos).cls
    requires SingledOut(trees, roots, pos[..|pos| - 1])
    ensures SingledOut(trees, roots, pos) <==>
            PicksItself(Children(trees, pos[..|pos| - 1]), pos[|pos| - 1], WantedIndex(SegmentOf(trees, pos)))
  {
    var p := pos[..|pos| - 1];
    PathGrows(trees, pos);
    LastStep(trees, roots, PathSegments(trees, p), p, pos[|pos| - 1], SegmentOf(trees, pos));
  }

  lemma {:induction false} ClearSinglesOut(trees: seq<Node>, roots: seq<Pos>, pos: Pos)
    requires Sane(trees) && AllWidgets(trees, roots) && IsWidget(trees, pos)
    requires Clear(trees, roots, Top(trees, pos))
    ensures SingledOut(trees, roots, pos)
    decreases |pos|
  {
    if Stops(trees, pos) {
      RoundTripSinglesOut(trees, roots, pos);
      WindowRoundTrips(trees, roots, pos);
    } else {
      var p := pos[..|pos| - 1];
      ClearSinglesOut(trees, roots, p);
      ChildrenPick(Children(trees, p));
      SegmentOfReads(trees, pos);
      ChildSingledOut(trees, roots, pos);
    }
  }

  ghost predicate WindowResolves(trees: seq<Node>, roots: seq<Pos>, t: Pos)
    requires AllWidgets(trees, roots)
  {
    forall pos: Pos :: IsWidget(trees, pos) && Top(trees, pos) == t ==> RoundTrips(trees, roots, pos)
  }

  lemma ChildrenSingledOut(trees: seq<Node>, roots: seq<Pos>, p: Pos)
    requires Sane(trees) && AllWidgets(trees, roots) && IsWidget(trees, p)
    requires WindowResolves(trees, roots, Top(trees, p))
    ensures ImpostorsHarmless(Children(trees, p))
  {
    var kids := Children(trees, p);
    RoundTripSinglesOut(trees, roots, p);
    forall i | 0 <= i < |kids| && Inner(kids[i])
      ensures PicksItself(kids, i, SiblingIndex(kids, i))
    {
      ChildIsPos(trees, p, i);
      RoundTripSinglesOut(trees, roots, p + [i]);
      SegmentOfReads(trees, p + [i]);
      ChildSingledOut(trees, roots, p + [i]);
    }
    ChildrenPick(kids);
  }

  /** All of a window is found again exactly when the window is clear. */
  lemma WindowResolvesIff(trees: seq<Node>, roots: seq<Pos>, t: Pos)
    requires Sane(trees) && AllWidgets(trees, roots) && IsWidget(trees, t) && Stops(trees, t)
    ensures WindowResolves(trees, roots, t) <==> Clear(trees, roots, t)
  {
    if Clear(trees, roots, t) {
      forall pos: Pos | IsWidget(trees, pos) && Top(trees, pos) == t
        ensures RoundTrips(trees, roots, pos)
      {
        ClearSinglesOut(trees, roots, pos);
        RoundTripSinglesOut(trees, roots, pos);
      }
    }
    if WindowResolves(trees, roots, t) {
      WindowRoundTrips(trees, roots, t);
      forall p: Pos | IsWidget(trees, p) && Top(trees, p) == t
        ensures ImpostorsHarmless(Children(trees, p))
      {
        ChildrenSingledOut(trees, roots, p);
      }
    }
  }

  // ---------------------------------------------------------- windows not listed

  predicate StandsBelow(roots: seq<Pos>, c: Pos, depth: nat) {
    |c| > depth && c[..|c| - depth] in roots
  }

  /** Every position stands `depth` levels below a root. */
  ghost predicate BelowRoots(roots: seq<Pos>, list: seq<Pos>, depth: nat) {
    forall c :: c in list ==> StandsBelow(roots, c, depth)
  }

  lemma RootsMatched(trees: seq<Node>, roots: seq<Pos>, segment: string)
    requires AllWidgets(trees, roots) && Advanced(trees, roots, true, segment).Some?
    ensures BelowRoots(roots, Advanced(trees, roots, true, segment).value, 0)
  {
    KeptAre(Nodes(trees, roots), roots, Token(segment), |roots|);
    forall c | c in Advanced(trees, roots, true, segment).value
      ensures StandsBelow(roots, c, 0)
    {
      assert c[..|c|] == c;
    }
  }

  lemma ChildrenMatched(trees: seq<Node>, roots: seq<Pos>, current: seq<Pos>, segment: string, depth: nat)
    requires AllWidgets(trees, current) && BelowRoots(roots, current, depth)
    requires Advanced(trees, current, false, segment).Some?
    ensures BelowRoots(roots, Advanced(trees, current, false, segment).value, depth + 1)
  {
    forall c | c in Advanced(trees, current, false, segment).value
      ensures StandsBelow(roots, c, depth + 1)
    {
      NarrowFrom(trees, current, Token(segment), |current|, c);
      var p := c[..|c| - 1];
      assert StandsBelow(roots, p, depth);
      assert c[..|c| - (depth + 1)] == p[..|p| - depth];
    }
  }

  /** Each further segment goes one level down. */
  lemma {:induction false} CandidatesBelowRoots(
    trees: seq<Node>, roots: seq<Pos>, current: seq<Pos>, segments: seq<string>, depth: nat)
    requires AllWidgets(trees, current) && BelowRoots(roots, current, depth)
    requires Candidates(trees, current, false, segments).Some?
    ensures BelowRoots(roots, Candidates(trees, current, false, segments).value, depth + |segments|)
    decreases |segments|
  {
    if segments != [] {
      ChildrenMatched(trees, roots, current, segments[0], depth);
      var next := Advanced(trees, current, false, segments[0]);
      CandidatesBelowRoots(trees, roots, next.value, segments[1..], depth + 1);
    }
  }

  lemma {:induction false} NarrowFrom(trees: seq<Node>, current: seq<Pos>, token: string, n: nat, c: Pos)
    requires AllWidgets(trees, current) && n <= |current| && c in Narrow(trees, current, token, n)
    ensures c != [] && c[..|c| - 1] in current
  {
    if c in Narrow(trees, current, token, n - 1) {
      NarrowFrom(trees, current, token, n - 1, c);
    } else {
      var p := current[n - 1];
      var kids := Children(trees, p);
      KeptAre(kids, Below(p, |kids|), token, |kids|);
      var i :| 0 <= i < |kids| && c == p + [i];
      assert c[..|c| - 1] == p;
    }
  }

  lemma CandidatesBelow(trees: seq<Node>, roots: seq<Pos>, segments: seq<string>)
    requires AllWidgets(trees, roots) && segments != [] && Candidates(trees, roots, true, segments).Some?
    ensures BelowRoots(roots, Candidates(trees, roots, true, segments).value, |segments| - 1)
  {
    RootsMatched(trees, roots, segments[0]);
    CandidatesBelowRoots(trees, roots, Advanced(trees, roots, true, segments[0]).value, segments[1..], 0);
  }

  lemma PathDepth(trees: seq<Node>, pos: Pos)
    requires IsWidget(trees, pos)
    ensures pos[..|pos| - (|PathSegments(trees, pos)| - 1)] == Top(trees, pos)
  {
  }

  /** Nothing in a window that is no root is ever found from its own path. */
  lemma UnlistedWindowLost(trees: seq<Node>, roots: seq<Pos>, pos: Pos)
    requires Sane(trees) && AllWidgets(trees, roots) && IsWidget(trees, pos)
    requires Top(trees, pos) !in roots
    ensures !RoundTrips(trees, roots, pos)
  {
    RoundTripSinglesOut(trees, roots, pos);
    var segments := PathSegments(trees, pos);
    PathDepth(trees, pos);
    assert !StandsBelow(roots, pos, |segments| - 1);
    var left := Candidates(trees, roots, true, segments);
    assert left == Some([pos]) ==> pos in left.value;
    if left.Some? { CandidatesBelow(trees, roots, segments); }
  }

  /** The widgets that searches from the roots walk over. */
  ghost predicate Reached(trees: seq<Node>, roots: seq<Pos>, pos: Pos) {
    IsWidget(trees, pos) && exists r :: r in roots && r <= pos
  }

  /** Every widget under the roots is found again from its own path exactly when the window
      each of them is in is clear. */
  lemma EveryPathResolves(trees: seq<Node>, roots: seq<Pos>)
    requires Sane(trees) && AllWidgets(trees, roots)
    ensures (forall pos: Pos :: Reached(trees, roots, pos) ==> RoundTrips(trees, roots, pos)) <==>
            (forall pos: Pos :: Reached(trees, roots, pos) ==> Clear(trees, roots, Top(trees, pos)))
  {
    if forall pos: Pos :: Reached(trees, roots, pos) ==> RoundTrips(trees, roots, pos) {
      forall pos: Pos | Reached(trees, roots, pos)
        ensures Clear(trees, roots, Top(trees, pos))
      {
        if Top(trees, pos) !in roots { UnlistedWindowLost(trees, roots, pos); }
        WindowResolvesIff(trees, roots, Top(trees, pos));
      }
    }
    if forall pos: Pos :: Reached(trees, roots, pos) ==> Clear(trees, roots, Top(trees, pos)) {
      forall pos: Pos | Reached(trees, roots, pos)
        ensures RoundTrips(trees, roots, pos)
      {
        ClearSinglesOut(trees, roots, pos);
        RoundTripSinglesOut(trees, roots, pos);
      }
    }
  }

  // -------------------------------------------------------- roots without parents

  function Parentless(trees: seq<Node>): seq<Pos> {
    seq(|trees|, i => [i])
  }

  predicate RootsApart(trees: seq<Node>) {
    forall i, j :: 0 <= i < |trees| && 0 <= j < |trees| && i != j ==>
      trees[i].cls != trees[j].cls && trees[i].name != trees[j].cls
  }

  /** No root is mistaken for another, no window lies inside another, and no object name gets
      in the way of a class. */
  ghost predicate Unambiguous(trees: seq<Node>) {
    && RootsApart(trees)
    && (forall p: Pos :: IsWidget(trees, p) && |p| >= 2 ==> !At(trees, p).isWindow)
    && (forall p: Pos :: IsWidget(trees, p) ==> ImpostorsHarmless(Children(trees, p)))
  }

  lemma ParentlessAre(trees: seq<Node>)
    requires forall i :: 0 <= i < |trees| ==> trees[i].isWidget
    ensures AllWidgets(trees, Parentless(trees)) && Nodes(trees, Parentless(trees)) == trees
  {
    forall i | 0 <= i < |trees|
      ensures IsWidget(trees, [i]) && At(trees, [i]) == trees[i]
    {
      ChildIsPos(trees, [], i);
      assert [] + [i] == [i];
    }
  }

  lemma RootsPick(trees: seq<Node>)
    requires forall i :: 0 <= i < |trees| ==> trees[i].isWidget
    ensures RootsApart(trees) <==> forall i :: 0 <= i < |trees| ==> PicksItself(trees, i, None)
  {
    forall i | 0 <= i < |trees|
      ensures PicksItself(trees, i, None) <==>
              forall k :: 0 <= k < |trees| && k != i ==> trees[k].cls != trees[i].cls && trees[k].name != trees[i].cls
    {
      OnlyMatch(trees, trees[i].cls, i, |trees|);
    }
  }

  lemma {:induction false} FirstInRange(trees: seq<Node>, pos: Pos)
    requires IsWidget(trees, pos)
    ensures pos[0] < |trees|
    decreases |pos|
  {
    if |pos| > 1 {
      FirstInRange(trees, pos[..|pos| - 1]);
    } else {
      assert pos[..0] == [] && IsPos(trees, pos[..0]) && Children(trees, pos[..0]) == trees;
    }
  }

  lemma RootListed(trees: seq<Node>, t: Pos)
    requires (forall i :: 0 <= i < |trees| ==> trees[i].isWidget) && AllWidgets(trees, Parentless(trees))
    requires IsWidget(trees, t)
    ensures t[0] < |trees|
    ensures Listed(trees, Parentless(trees), t) <==> |t| == 1 && PicksItself(trees, t[0], None)
  {
    ParentlessAre(trees);
    FirstInRange(trees, t);
    if |t| == 1 {
      assert Parentless(trees)[t[0]] == t;
    }
  }

  lemma UnambiguousClear(trees: seq<Node>, t: Pos)
    requires (forall i :: 0 <= i < |trees| ==> trees[i].isWidget) && AllWidgets(trees, Parentless(trees))
    requires Unambiguous(trees) && IsWidget(trees, t) && Stops(trees, t)
    ensures Clear(trees, Parentless(trees), t)
  {
    RootListed(trees, t);
    RootsPick(trees);
  }

  lemma ClearUnambiguous(trees: seq<Node>)
    requires (forall i :: 0 <= i < |trees| ==> trees[i].isWidget) && AllWidgets(trees, Parentless(trees))
    requires forall p: Pos :: IsWidget(trees, p) ==> Clear(trees, Parentless(trees), Top(trees, p))
    ensures Unambiguous(trees)
  {
    forall i | 0 <= i < |trees|
      ensures PicksItself(trees, i, None)
    {
      assert Parentless(trees)[i] == [i];
      RootListed(trees, [i]);
      assert Clear(trees, Parentless(trees), Top(trees, [i]));
    }
    RootsPick(trees);
    forall p: Pos | IsWidget(trees, p)
      ensures |p| >= 2 ==> !At(trees, p).isWindow
      ensures ImpostorsHarmless(Children(trees, p))
    {
      assert Clear(trees, Parentless(trees), Top(trees, p));
      RootListed(trees, Top(trees, p));
    }
  }

  /** With exactly the widgets without a parent as roots, every widget is found again from its
      own path if and only if the forest is unambiguous. */
  lemma ParentlessRootsResolve(trees: seq<Node>)
    requires Sane(trees) && forall i :: 0 <= i < |trees| ==> trees[i].isWidget
    ensures AllWidgets(trees, Parentless(trees))
    ensures (forall pos: Pos :: IsWidget(trees, pos) ==> RoundTrips(trees, Parentless(trees), pos)) <==>
            Unambiguous(trees)
  {
    var roots := Parentless(trees);
    ParentlessAre(trees);
    if Unambiguous(trees) {
      forall p: Pos | IsWidget(trees, p)
        ensures RoundTrips(trees, roots, p)
      {
        UnambiguousClear(trees, Top(trees, p));
        ClearSinglesOut(trees, roots, p);
        RoundTripSinglesOut(trees, roots, p);
      }
    }
    if forall p: Pos :: IsWidget(trees, p) ==> RoundTrips(trees, roots, p) {
      forall p: Pos | IsWidget(trees, p)
        ensures Clear(trees, roots, Top(trees, p))
      {
        WindowResolvesIff(trees, roots, Top(trees, p));
      }
      ClearUnambiguous(trees);
    }
  }

  // -------------------------------------------------------------- default roots

  /** With no roots set, nothing in a popup, a tooltip or a splash screen is found. */
  lemma TransientWindowLost(trees: seq<Node>, topLevel: seq<Pos>, pos: Pos)
    requires Sane(trees) && AllWidgets(trees, topLevel) && IsWidget(trees, pos)
    requires At(trees, Top(trees, pos)).transient
    ensures !RoundTrips(trees, Windows(trees, topLevel, |topLevel|), pos)
  {
    WindowsAre(trees, topLevel, |topLevel|);
    UnlistedWindowLost(trees, Windows(trees, topLevel, |topLevel|), pos);
  }

  // ------------------------------------------------------- a window with a parent

  const BOX := Node("QMessageBox", "", true, true, false, [])

  /** A window that owns `n` message boxes. */
  function Owner(n: nat): seq<Node> {
    [Node("EditorWindow", "", true, true, false, seq(n, _ => BOX))]
  }

  lemma OwnerBox(n: nat, i: nat)
    requires i < n
    ensures IsWidget(Owner(n), [0]) && IsWidget(Owner(n), [0, i]) && At(Owner(n), [0, i]) == BOX
    ensures [0, i][..1] == [0]
  {
    ChildIsPos(Owner(n), [], 0);
    assert [] + [0] == [0];
    ChildIsPos(Owner(n), [0], i);
    assert [0] + [i] == [0, i];
  }

  lemma {:induction false} OwnerShape(n: nat, p: Pos)
    requires IsWidget(Owner(n), p)
    ensures |p| <= 2 && At(Owner(n), p) == if |p| == 1 then Owner(n)[0] else BOX
    decreases |p|
  {
    if |p| > 1 { OwnerShape(n, p[..|p| - 1]); }
  }

  lemma OwnerSane(n: nat)
    requires n <= INT_MAX
    ensures Sane(Owner(n))
  {
    forall p: Pos | IsPos(Owner(n), p)
      ensures WellNamed(Children(Owner(n), p))
    {
      if p != [] { OwnerShape(n, p); }
    }
  }

  /** A message box owned by a window is a root as well, and is found from its own path. */
  lemma OwnedBoxFound()
    ensures AllWidgets(Owner(1), [[0], [0, 0]]) && IsWidget(Owner(1), [0, 0])
    ensures RoundTrips(Owner(1), [[0], [0, 0]], [0, 0])
  {
    var trees, roots := Owner(1), [[0], [0, 0]];
    OwnerSane(1);
    OwnerBox(1, 0);
    WindowRoundTrips(trees, roots, [0, 0]);
    var nodes := Nodes(trees, roots);
    assert !Matches(nodes[0], BOX.cls);
    assert MatchesBefore(nodes, BOX.cls, 1) == 0;
    assert ClassBefore([BOX], BOX.cls, 0) == 0;
    assert Children(trees, [0]) == [BOX];
    assert roots[1] == [0, 0] && PicksItself(nodes, 1, None);
  }

  /** A window's path leads to whatever its class and index pick among the roots. */
  lemma WindowLeads(trees: seq<Node>, roots: seq<Pos>, t: Pos, found: Pos)
    requires Sane(trees) && AllWidgets(trees, roots) && IsWidget(trees, t) && Stops(trees, t)
    requires Picked(Kept(Nodes(trees, roots), roots, At(trees, t).cls, |roots|), IndexOf(trees, t)) == Some([found])
    ensures Resolved(trees, roots, SplitSkippingEmpty(Join(PathSegments(trees, t)))) == Found(found)
  {
    PathReadsBack(trees, t);
    SegmentOfReads(trees, t);
    CandidatesSnoc(trees, roots, true, [], SegmentOf(trees, t));
    assert [] + PathSegments(trees, t) == PathSegments(trees, t);
  }

  /** Two boxes of one owner carry numbers, which pick by the order of the roots: listed the
      other way round, the path of each leads to the other. */
  lemma RootOrderDecides()
    ensures AllWidgets(Owner(2), [[0], [0, 1], [0, 0]]) && IsWidget(Owner(2), [0, 1])
    ensures Resolved(Owner(2), [[0], [0, 1], [0, 0]], SplitSkippingEmpty(Join(PathSegments(Owner(2), [0, 1])))) ==
            Found([0, 0])
  {
    var trees, roots := Owner(2), [[0], [0, 1], [0, 0]];
    OwnerSane(2);
    OwnerBox(2, 0);
    OwnerBox(2, 1);
    assert Children(trees, [0]) == [BOX, BOX];
    assert ClassBefore([BOX, BOX], BOX.cls, 0) == 0 && ClassBefore([BOX, BOX], BOX.cls, 1) == 1;
    SecondIsFirst(Nodes(trees, roots), roots);
    WindowLeads(trees, roots, [0, 1], [0, 0]);
  }

  lemma SecondIsFirst(nodes: seq<Node>, roots: seq<Pos>)
    requires |nodes| == |roots| == 3 && nodes == [Owner(2)[0], BOX, BOX]
    ensures Picked(Kept(nodes, roots, BOX.cls, 3), Some(1)) == Some([roots[2]])
  {
    assert !Matches(nodes[0], BOX.cls) && Kept(nodes, roots, BOX.cls, 0) == [];
    assert Kept(nodes, roots, BOX.cls, 2) == [roots[1]];
    assert Kept(nodes, roots, BOX.cls, 3) == [roots[1], roots[2]];
  }
}
