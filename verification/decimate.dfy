/** One column of pixels per slice of a window: what keeps a plot cheap. */
module Decimate {
  import opened SampleRing
  import opened Buckets

  datatype ColumnStats = ColumnStats(hasData: bool, min: real, max: real, first: real, last: real)

  const EMPTY := ColumnStats(false, 0.0, 0.0, 0.0, 0.0)

  datatype Window = Window(begin: real, end: real)

  /** The column a time falls in, the last one closed at the top. */
  function ColumnOf(t: real, w: Window, columns: nat): (k: nat)
    requires columns > 0 && w.begin < w.end
    ensures k < columns
  {
    var position := (t - w.begin) / (w.end - w.begin) * columns as real;
    if position <= 0.0 then 0
    else if position.Floor >= columns then columns - 1 else position.Floor
  }

  /** `k` columns' worth of time from the left edge. */
  function Edge(k: int, w: Window, columns: nat): real
    requires columns > 0
  {
    w.begin + k as real * ((w.end - w.begin) / columns as real)
  }

  lemma ScaleDown(x: real, span: real, n: real)
    requires span > 0.0 && n > 0.0
    ensures x == (x / span * n) * (span / n) && span / n > 0.0 && n * (span / n) == span
  {
    var q, r := x / span, span / n;
    assert q * span == x && r * n == span;
    assert (q * n) * r == q * (r * n);
  }

  lemma ScaleLe(a: real, b: real, d: real)
    requires d > 0.0
    ensures a <= b <==> a * d <= b * d
    ensures a < b <==> a * d < b * d
  {
    assert (b - a) * d == b * d - a * d;
  }

  /** Comparing a time with an edge is comparing its position with a whole number. */
  lemma EdgeOrder(t: real, w: Window, columns: nat, k: int)
    requires columns > 0 && w.begin < w.end
    ensures var position := (t - w.begin) / (w.end - w.begin) * columns as real;
            && (Edge(k, w, columns) <= t <==> k as real <= position)
            && (t < Edge(k, w, columns) <==> position < k as real)
  {
    var span, n := w.end - w.begin, columns as real;
    ScaleDown(t - w.begin, span, n);
    ScaleLe(k as real, (t - w.begin) / span * n, span / n);
  }

  /** Column `k` covers its own slice of the window and no other, the last one
      including the right edge. */
  lemma ColumnCovers(t: real, w: Window, columns: nat, k: nat)
    requires columns > 0 && w.begin < w.end && w.begin <= t <= w.end && k < columns
    ensures ColumnOf(t, w, columns) == k <==>
            Edge(k, w, columns) <= t && (t < Edge(k + 1, w, columns) || k == columns - 1)
  {
    EdgeOrder(t, w, columns, 0);
    EdgeOrder(t, w, columns, k);
    EdgeOrder(t, w, columns, k + 1);
  }

  function Placing(w: Window, columns: nat): Sample -> nat
    requires columns > 0 && w.begin < w.end
  {
    (s: Sample) => ColumnOf(s.t, w, columns)
  }

  // --------------------------------------------------------------- one column

  function RealMin(a: real, b: real): real { if b < a then b else a }

  function RealMax(a: real, b: real): real { if a < b then b else a }

  /** The stats after one more sample of the column. */
  function Widen(c: ColumnStats, v: real): ColumnStats {
    if !c.hasData then ColumnStats(true, v, v, v, v)
    else c.(min := RealMin(c.min, v), max := RealMax(c.max, v), last := v)
  }

  /** What a column should say about the samples that fall in it. */
  ghost predicate Describes(c: ColumnStats, members: seq<Sample>) {
    if members == [] then c == EMPTY
    else
      && c.hasData
      && (forall i :: 0 <= i < |members| ==> c.min <= members[i].v <= c.max)
      && (exists i :: 0 <= i < |members| && members[i].v == c.min)
      && (exists i :: 0 <= i < |members| && members[i].v == c.max)
      && c.first == members[0].v && c.last == members[|members| - 1].v
  }

  lemma WidenDescribes(c: ColumnStats, members: seq<Sample>, x: Sample)
    requires Describes(c, members)
    ensures Describes(Widen(c, x.v), members + [x])
  {
    var more := members + [x];
    assert more[|members|] == x;
    if members != [] {
      var i :| 0 <= i < |members| && members[i].v == c.min;
      var j :| 0 <= j < |members| && members[j].v == c.max;
      assert more[i] == members[i] && more[j] == members[j];
    }
  }

  // ---------------------------------------------------------------- the window

  /** The samples of a window, both ends included. */
  function Shown(s: seq<Sample>, w: Window): seq<Sample> {
    var from := CountBefore(s, w.begin);
    s[from..CountUpTo(s, w.end, from)]
  }

  /** They are exactly the samples timed inside it, in order and without a gap. */
  lemma ShownIsWindow(s: seq<Sample>, w: Window, i: nat)
    requires NonDecreasing(s) && i < |s|
    ensures w.begin <= s[i].t <= w.end <==>
            CountBefore(s, w.begin) <= i < CountBefore(s, w.begin) + |Shown(s, w)|
  {
    var from := CountBefore(s, w.begin);
    var to := CountUpTo(s, w.end, from);
    assert i >= to && to < |s| ==> s[to].t <= s[i].t;
    assert i >= from && from < |s| ==> s[from].t <= s[i].t;
  }

  ghost function FilledColumns(shown: seq<Sample>, w: Window, columns: nat): set<nat>
    requires columns > 0 && w.begin < w.end
  {
    set k: nat | k < columns && Pick(shown, Placing(w, columns), k) != []
  }

  ghost predicate AllDescribed(out: seq<ColumnStats>, shown: seq<Sample>, w: Window)
    requires |out| > 0 && w.begin < w.end
  {
    forall k :: 0 <= k < |out| ==> Describes(out[k], Pick(shown, Placing(w, |out|), k))
  }

  lemma PlaceOne(out: seq<ColumnStats>, shown: seq<Sample>, w: Window, x: Sample)
    requires |out| > 0 && w.begin < w.end && AllDescribed(out, shown, w)
    ensures var k := ColumnOf(x.t, w, |out|);
            && AllDescribed(out[k := Widen(out[k], x.v)], shown + [x], w)
            && FilledColumns(shown + [x], w, |out|) == FilledColumns(shown, w, |out|) + {k}
            && (k in FilledColumns(shown, w, |out|) <==> out[k].hasData)
  {
    var c, place := ColumnOf(x.t, w, |out|), Placing(w, |out|);
    WidenDescribes(out[c], Pick(shown, place, c), x);
    forall k: nat
      ensures Pick(shown + [x], place, k) == if k == c then Pick(shown, place, k) + [x] else Pick(shown, place, k)
    {
      PickSnoc(shown, x, place, k);
    }
  }

  lemma NothingPlaced(out: seq<ColumnStats>, w: Window)
    requires |out| > 0 && w.begin < w.end && forall k :: 0 <= k < |out| ==> out[k] == EMPTY
    ensures AllDescribed(out, [], w) && FilledColumns([], w, |out|) == {}
  {
  }

  /** The loop body: one sample into its column. */
  method PlaceSample(out: array<ColumnStats>, x: Sample, w: Window, ghost shown: seq<Sample>) returns (first: bool)
    requires out.Length > 0 && w.begin < w.end && AllDescribed(out[..], shown, w)
    modifies out
    ensures AllDescribed(out[..], shown + [x], w)
    ensures |FilledColumns(shown + [x], w, out.Length)|
         == |FilledColumns(shown, w, out.Length)| + if first then 1 else 0
  {
    var column := ColumnOf(x.t, w, out.Length);
    ghost var was := out[..];
    PlaceOne(was, shown, w, x);
    first := !out[column].hasData;
    out[column] := Widen(out[column], x.v);
    assert out[..] == was[column := Widen(was[column], x.v)];
    assert !first ==> FilledColumns(shown + [x], w, out.Length) == FilledColumns(shown, w, out.Length);
  }

  /** The walk over the window, from its first sample to the first one past it. */
  method FillColumns(history: SampleHistory, start: nat, w: Window, out: array<ColumnStats>, ghost s: seq<Sample>)
    returns (filled: nat)
    requires history.Valid() && s == history.Contents() && NonDecreasing(s) && start == CountBefore(s, w.begin)
    requires out.Length > 0 && w.begin < w.end && forall k :: 0 <= k < out.Length ==> out[k] == EMPTY
    modifies out
    ensures AllDescribed(out[..], Shown(s, w), w)
    ensures filled == |FilledColumns(Shown(s, w), w, out.Length)|
  {
    NothingPlaced(out[..], w);
    filled := 0;
    ghost var stop := CountUpTo(s, w.end, start);
    ghost var shown: seq<Sample> := [];
    var i := start;
    while i < history.size
      invariant start <= i <= stop && shown == s[start..i]
      invariant AllDescribed(out[..], shown, w)
      invariant filled == |FilledColumns(shown, w, out.Length)|
    {
      var sample := history.At(i);
      assert sample == s[i];
      if sample.t > w.end {
        break;
      }
      UpToSorted(s, w.end, start, i);
      var first := PlaceSample(out, sample, w, shown);
      shown := shown + [sample];
      if first {
        filled := filled + 1;
      }
      i := i + 1;
    }
    assert shown == Shown(s, w);
  }

  method DecimateMinMax(history: SampleHistory, w: Window, columns: nat) returns (filled: nat, out: array<ColumnStats>)
    requires history.Valid() && NonDecreasing(history.Contents())
    ensures fresh(out) && out.Length == columns
    ensures columns == 0 || !(w.begin < w.end) ==> filled == 0 && forall k :: 0 <= k < columns ==> out[k] == EMPTY
    ensures columns > 0 && w.begin < w.end ==>
              && AllDescribed(out[..], Shown(history.Contents(), w), w)
              && filled == |FilledColumns(Shown(history.Contents(), w), w, columns)|
              && (filled == 0 <==> Shown(history.Contents(), w) == [])
  {
    out := new ColumnStats[columns](_ => EMPTY);
    if columns == 0 || !(w.end > w.begin) || history.size == 0 {
      if columns > 0 && w.begin < w.end {
        NothingPlaced(out[..], w);
        FilledIffShown([], w, columns);
        assert Shown(history.Contents(), w) == [];
      }
      return 0, out;
    }
    var start := history.LowerBound(w.begin);
    filled := FillColumns(history, start, w, out, history.Contents());
    FilledIffShown(Shown(history.Contents(), w), w, columns);
  }

  lemma UpToSorted(s: seq<Sample>, t: real, k: nat, i: nat)
    requires NonDecreasing(s) && k <= i < |s| && s[i].t <= t
    ensures i < CountUpTo(s, t, k)
  {
    var n := CountUpTo(s, t, k);
    assert n < |s| ==> t < s[n].t;
  }

  /** Every sample of the window is in the extent of its own column: a spike is never
      decimated away. */
  lemma NothingLost(out: seq<ColumnStats>, shown: seq<Sample>, w: Window, i: nat)
    requires |out| > 0 && w.begin < w.end && AllDescribed(out, shown, w) && i < |shown|
    ensures var c := out[ColumnOf(shown[i].t, w, |out|)];
            c.hasData && c.min <= shown[i].v <= c.max
  {
    var k, place := ColumnOf(shown[i].t, w, |out|), Placing(w, |out|);
    PickMembers(shown, place, k);
    var members := Pick(shown, place, k);
    assert shown[i] in members;
    var j :| 0 <= j < |members| && members[j] == shown[i];
  }

  /** And a column shows nothing that is not there: its extremes are samples in it. */
  lemma NothingInvented(out: seq<ColumnStats>, shown: seq<Sample>, w: Window, k: nat) returns (low: Sample, high: Sample)
    requires w.begin < w.end && k < |out| && AllDescribed(out, shown, w) && out[k].hasData
    ensures low in shown && ColumnOf(low.t, w, |out|) == k && low.v == out[k].min
    ensures high in shown && ColumnOf(high.t, w, |out|) == k && high.v == out[k].max
  {
    var members := Pick(shown, Placing(w, |out|), k);
    assert Describes(out[k], members);
    PickMembers(shown, Placing(w, |out|), k);
    var i :| 0 <= i < |members| && members[i].v == out[k].min;
    var j :| 0 <= j < |members| && members[j].v == out[k].max;
    low, high := members[i], members[j];
    assert low in members && high in members;
  }

  /** So the columns have exactly the window's extent: any bounds hold for all the
      columns just when they hold for all the samples. */
  lemma EnvelopeExact(out: seq<ColumnStats>, shown: seq<Sample>, w: Window, lo: real, hi: real)
    requires |out| > 0 && w.begin < w.end && AllDescribed(out, shown, w)
    ensures (forall k :: 0 <= k < |out| && out[k].hasData ==> lo <= out[k].min && out[k].max <= hi)
       <==> (forall i :: 0 <= i < |shown| ==> lo <= shown[i].v <= hi)
  {
    forall i: nat | i < |shown|
      ensures var c := out[ColumnOf(shown[i].t, w, |out|)]; c.hasData && c.min <= shown[i].v <= c.max
    {
      NothingLost(out, shown, w, i);
    }
    forall k: nat | k < |out| && out[k].hasData
      ensures exists i, j :: 0 <= i < |shown| && 0 <= j < |shown| && shown[i].v == out[k].min && shown[j].v == out[k].max
    {
      var low, high := NothingInvented(out, shown, w, k);
      var i :| 0 <= i < |shown| && shown[i] == low;
      var j :| 0 <= j < |shown| && shown[j] == high;
    }
  }

  /** No column is filled exactly when the window is empty. */
  lemma FilledIffShown(shown: seq<Sample>, w: Window, columns: nat)
    requires columns > 0 && w.begin < w.end
    ensures |FilledColumns(shown, w, columns)| == 0 <==> shown == []
  {
    if shown != [] {
      var k, place := ColumnOf(shown[0].t, w, columns), Placing(w, columns);
      PickMembers(shown, place, k);
      assert shown[0] in Pick(shown, place, k);
      assert k in FilledColumns(shown, w, columns);
    } else {
      assert FilledColumns(shown, w, columns) == {};
    }
  }
}
