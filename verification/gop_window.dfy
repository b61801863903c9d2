/** Which messages of an indexed raw stream make up the window for a playback
    position, and how those windows lie against each other. */
module GopWindow {
  import opened Basics

  /** One message of the payload-free index. `seekPoint` and `preamble` are the
      two reserved bits of the flags word. */
  datatype Entry = Entry(t: nat, seekPoint: bool, preamble: bool)

  ghost predicate NonDecreasing(entries: seq<Entry>) {
    forall i, j :: 0 <= i < j < |entries| ==> entries[i].t <= entries[j].t
  }

  ghost predicate NoSeekPreamble(entries: seq<Entry>) {
    forall i :: 0 <= i < |entries| ==> !(entries[i].seekPoint && entries[i].preamble)
  }

  /** How many leading entries are at or before `position`, the first `k` being so. */
  function ReachedFrom(entries: seq<Entry>, position: int, k: nat): (n: nat)
    requires k <= |entries|
    ensures k <= n <= |entries|
    ensures forall i :: k <= i < n ==> entries[i].t <= position
    ensures n < |entries| ==> position < entries[n].t
    decreases |entries| - k
  {
    if k == |entries| || position < entries[k].t then k else ReachedFrom(entries, position, k + 1)
  }

  function Reached(entries: seq<Entry>, position: int): (n: nat)
    ensures n <= |entries|
    ensures forall i :: 0 <= i < n ==> entries[i].t <= position
    ensures n < |entries| ==> position < entries[n].t
  {
    ReachedFrom(entries, position, 0)
  }

  /** The last seek point at or before index `at`. */
  function LastSeek(entries: seq<Entry>, at: nat): (r: Option<nat>)
    requires at < |entries|
    ensures r.Some? ==> r.value <= at && entries[r.value].seekPoint
    ensures r.Some? ==> forall i :: r.value < i <= at ==> !entries[i].seekPoint
    ensures r.None? ==> forall i :: 0 <= i <= at ==> !entries[i].seekPoint
  {
    if entries[at].seekPoint then Some(at)
    else if at == 0 then None
    else LastSeek(entries, at - 1)
  }

  /** The first seek point at or after `from`, or the length when there is none. */
  function NextSeek(entries: seq<Entry>, from: nat): (n: nat)
    requires from <= |entries|
    ensures from <= n <= |entries|
    ensures n < |entries| ==> entries[n].seekPoint
    ensures forall i :: from <= i < n ==> !entries[i].seekPoint
    decreases |entries| - from
  {
    if from == |entries| || entries[from].seekPoint then from
    else NextSeek(entries, from + 1)
  }

  /** Where the run of preamble entries ending just before `k` starts, looking
      back no further than `floor`. */
  function PreambleStart(entries: seq<Entry>, k: nat, floor: nat): (s: nat)
    requires floor <= k <= |entries|
    ensures floor <= s <= k
    ensures forall i :: s <= i < k ==> entries[i].preamble
    ensures s > floor ==> !entries[s - 1].preamble
    decreases k
  {
    if k > floor && entries[k - 1].preamble then PreambleStart(entries, k - 1, floor) else k
  }

  /** The window start for a position: the governing seek point, extended back
      over the preamble in front of it. */
  function GopStart(entries: seq<Entry>, position: int): (r: Option<nat>)
    ensures r.Some? ==> r.value < |entries|
  {
    var n := Reached(entries, position);
    if n == 0 then None
    else match LastSeek(entries, n - 1)
      case None => None
      case Some(k) => Some(PreambleStart(entries, k, 0))
  }

  /** Some position selects the window that starts at `start`. */
  ghost predicate IsStart(entries: seq<Entry>, start: nat) {
    exists position: int :: GopStart(entries, position) == Some(start)
  }

  /** One past the last entry of the window that starts at `start`. */
  function WindowEnd(entries: seq<Entry>, start: nat): (r: nat)
    requires start <= |entries|
    ensures start <= r <= |entries|
    ensures start < |entries| ==> start < r
  {
    var own := NextSeek(entries, start);
    if own == |entries| then own
    else PreambleStart(entries, NextSeek(entries, own + 1), own + 1)
  }

  // ------------------------------------------------------- the searching loops

  method FindReached(entries: seq<Entry>, position: int) returns (low: nat)
    requires NonDecreasing(entries)
    ensures low == Reached(entries, position)
  {
    low := 0;
    var high := |entries|;
    while low < high
      invariant 0 <= low <= high <= |entries|
      invariant forall i :: 0 <= i < low ==> entries[i].t <= position
      invariant forall i :: high <= i < |entries| ==> position < entries[i].t
    {
      var mid := low + (high - low) / 2;
      if entries[mid].t <= position {
        low := mid + 1;
      } else {
        high := mid;
      }
    }
    assert low == |entries| || position < entries[low].t;
  }

  method FindGopStart(entries: seq<Entry>, position: int) returns (start: Option<nat>)
    requires NonDecreasing(entries)
    ensures start == GopStart(entries, position)
  {
    if |entries| == 0 {
      return None;
    }

    var low := FindReached(entries, position);
    if low == 0 {
      return None;
    }

    var seekPoint := low - 1;
    while !entries[seekPoint].seekPoint
      invariant 0 <= seekPoint < low
      invariant LastSeek(entries, seekPoint) == LastSeek(entries, low - 1)
      decreases seekPoint
    {
      if seekPoint == 0 {
        return None;
      }
      seekPoint := seekPoint - 1;
    }

    ghost var own := seekPoint;
    while seekPoint > 0 && entries[seekPoint - 1].preamble
      invariant 0 <= seekPoint <= own
      invariant PreambleStart(entries, seekPoint, 0) == PreambleStart(entries, own, 0)
      decreases seekPoint
    {
      seekPoint := seekPoint - 1;
    }
    return Some(seekPoint);
  }

  method FindWindowEnd(entries: seq<Entry>, start: nat) returns (next: nat)
    requires start < |entries|
    ensures next == WindowEnd(entries, start)
  {
    var own := start;
    while own < |entries| && !entries[own].seekPoint
      invariant start <= own <= |entries|
      invariant NextSeek(entries, own) == NextSeek(entries, start)
    {
      own := own + 1;
    }

    next := if own < |entries| then own + 1 else |entries|;
    ghost var from := next;
    while next < |entries| && !entries[next].seekPoint
      invariant from <= next <= |entries|
      invariant NextSeek(entries, next) == NextSeek(entries, from)
    {
      next := next + 1;
    }

    ghost var seek := next;
    while next > own + 1 && entries[next - 1].preamble
      invariant own < |entries| ==> own + 1 <= next <= seek
      invariant own == |entries| ==> next == seek
      invariant own < |entries| ==> PreambleStart(entries, next, own + 1) == PreambleStart(entries, seek, own + 1)
      decreases next
    {
      next := next - 1;
    }
  }

  // ------------------------------------------------------------- cover and tile

  lemma ReachedBeyond(entries: seq<Entry>, position: int)
    requires NonDecreasing(entries)
    ensures forall i :: Reached(entries, position) <= i < |entries| ==> position < entries[i].t
  {
    var n := Reached(entries, position);
    forall i | n <= i < |entries|
      ensures position < entries[i].t
    {
      assert entries[n].t <= entries[i].t;
    }
  }

  /** There is a window exactly when some seek point is at or before the position. */
  lemma WindowExists(entries: seq<Entry>, position: int)
    requires NonDecreasing(entries)
    ensures GopStart(entries, position).Some?
       <==> exists i :: 0 <= i < |entries| && entries[i].seekPoint && entries[i].t <= position
  {
    ReachedBeyond(entries, position);
    var n := Reached(entries, position);
    if n > 0 {
      var k := LastSeek(entries, n - 1);
      if k.Some? {
        assert entries[k.value].seekPoint && entries[k.value].t <= position;
      }
    }
  }

  /** Something that is no preamble comes at or after `i`, before the seek point after
      `own` or the end. */
  ghost predicate ContentAhead(entries: seq<Entry>, i: nat, own: nat)
    requires own < |entries|
  {
    exists j :: i <= j < NextSeek(entries, own + 1) && !entries[j].preamble
  }

  /** An entry is before the next preamble run exactly when content is ahead of it. */
  lemma BeforeRun(entries: seq<Entry>, i: nat, own: nat)
    requires own < |entries| && own < i < NextSeek(entries, own + 1)
    ensures i < PreambleStart(entries, NextSeek(entries, own + 1), own + 1) <==> ContentAhead(entries, i, own)
  {
    var k := NextSeek(entries, own + 1);
    var s := PreambleStart(entries, k, own + 1);
    assert i < s ==> i <= s - 1 < k && !entries[s - 1].preamble;
  }

  /** The seek point behind the window for a position, and nothing between them. */
  lemma Governing(entries: seq<Entry>, position: int) returns (own: nat)
    requires NonDecreasing(entries) && NoSeekPreamble(entries) && GopStart(entries, position).Some?
    ensures own < Reached(entries, position) <= NextSeek(entries, own + 1)
    ensures entries[own].seekPoint
    ensures GopStart(entries, position) == Some(PreambleStart(entries, own, 0))
    ensures NextSeek(entries, PreambleStart(entries, own, 0)) == own
  {
    own := LastSeek(entries, Reached(entries, position) - 1).value;
    NextSeekIs(entries, PreambleStart(entries, own, 0), own);
  }

  /** What the window for a position holds: the last seek point at or before it, the
      whole preamble run just before that, and exactly those entries from there to the
      position with content ahead of them before the next seek point or the end. */
  lemma WindowCovers(entries: seq<Entry>, position: int)
    requires NonDecreasing(entries) && NoSeekPreamble(entries)
    requires GopStart(entries, position).Some?
    ensures var start := GopStart(entries, position).value;
            var own, end, n := NextSeek(entries, start), WindowEnd(entries, start), Reached(entries, position);
            && start <= own < n && own < end && entries[own].seekPoint
            && (forall i :: own < i < n ==> !entries[i].seekPoint)
            && (forall i :: start <= i < own ==> entries[i].preamble)
            && (start > 0 ==> !entries[start - 1].preamble)
            && (forall i: nat :: own < i < n ==> (i < end <==> ContentAhead(entries, i, own)))
  {
    var own := Governing(entries, position);
    forall i: nat | own < i < Reached(entries, position)
      ensures i < PreambleStart(entries, NextSeek(entries, own + 1), own + 1) <==> ContentAhead(entries, i, own)
    {
      BeforeRun(entries, i, own);
    }
  }

  /** The window holds everything the position has reached exactly when the position is
      at the window's own seek point, or there is content at or after the last entry
      reached and before the next seek point or the end. */
  lemma WindowHoldsAllReached(entries: seq<Entry>, position: int)
    requires NonDecreasing(entries) && NoSeekPreamble(entries)
    requires GopStart(entries, position).Some?
    ensures var start, n := GopStart(entries, position).value, Reached(entries, position);
            var own := NextSeek(entries, start);
            && own < n
            && (n <= WindowEnd(entries, start) <==>
                  n == own + 1 || ContentAhead(entries, n - 1, own))
  {
    WindowCovers(entries, position);
  }

  lemma {:induction false} NextSeekIs(entries: seq<Entry>, from: nat, own: nat)
    requires from <= own < |entries| && entries[own].seekPoint
    requires forall i :: from <= i < own ==> !entries[i].seekPoint
    ensures NextSeek(entries, from) == own
    decreases own - from
  {
    if from < own {
      NextSeekIs(entries, from + 1, own);
    }
  }

  lemma {:induction false} LastSeekIs(entries: seq<Entry>, at: nat, own: nat)
    requires own <= at < |entries| && entries[own].seekPoint
    requires forall i :: own < i <= at ==> !entries[i].seekPoint
    ensures LastSeek(entries, at) == Some(own)
    decreases at
  {
    if own < at {
      LastSeekIs(entries, at - 1, own);
    }
  }

  /** A window ends exactly where the window of the following seek point starts. */
  lemma WindowsTile(entries: seq<Entry>, start: nat, next: nat)
    requires NonDecreasing(entries) && NoSeekPreamble(entries)
    requires start < |entries| && NextSeek(entries, start) < |entries|
    requires next == NextSeek(entries, NextSeek(entries, start) + 1) < |entries|
    requires forall i :: next < i < |entries| && entries[i].seekPoint ==> entries[next].t < entries[i].t
    ensures GopStart(entries, entries[next].t) == Some(WindowEnd(entries, start))
  {
    var position := entries[next].t;
    ReachedBeyond(entries, position);
    LastSeekIs(entries, Reached(entries, position) - 1, next);
    PreambleFloor(entries, next, NextSeek(entries, start) + 1);
  }

  /** Looking back never crosses an entry that is no preamble, so a floor just
      above one changes nothing. */
  lemma {:induction false} PreambleFloor(entries: seq<Entry>, k: nat, floor: nat)
    requires 0 < floor <= k <= |entries|
    requires !entries[floor - 1].preamble
    ensures PreambleStart(entries, k, floor) == PreambleStart(entries, k, 0)
    decreases k
  {
    if k > floor && entries[k - 1].preamble {
      PreambleFloor(entries, k - 1, floor);
    }
  }

  // ------------------------------------------------------------- the partition

  /** Seek points at different times, so that each is the last one at some position. */
  ghost predicate SeeksApart(entries: seq<Entry>) {
    forall i, j :: 0 <= i < j < |entries| && entries[i].seekPoint && entries[j].seekPoint ==> entries[i].t < entries[j].t
  }

  /** Entry `i` lies in the window that starts at `start`. */
  ghost predicate InWindow(entries: seq<Entry>, start: nat, i: nat) {
    start < |entries| && IsStart(entries, start) && start <= i < WindowEnd(entries, start)
  }

  /** Where the first window starts. */
  function FirstStart(entries: seq<Entry>): nat {
    var seek := NextSeek(entries, 0);
    if seek == |entries| then |entries| else PreambleStart(entries, seek, 0)
  }

  /** Where the preamble run at the very end starts. */
  function TrailingRun(entries: seq<Entry>): nat {
    PreambleStart(entries, |entries|, 0)
  }

  /** Looking back stops short of a seek point. */
  lemma RunStopsAtSeek(entries: seq<Entry>, seek: nat, k: nat)
    requires NoSeekPreamble(entries) && seek < k <= |entries| && entries[seek].seekPoint
    ensures seek < PreambleStart(entries, k, 0)
  {
    assert !entries[seek].preamble;
  }

  /** At its own time a seek point is the one that governs. */
  lemma SeekSelected(entries: seq<Entry>, seek: nat)
    requires NonDecreasing(entries) && SeeksApart(entries) && seek < |entries| && entries[seek].seekPoint
    ensures GopStart(entries, entries[seek].t) == Some(PreambleStart(entries, seek, 0))
  {
    var n := Reached(entries, entries[seek].t);
    ReachedBeyond(entries, entries[seek].t);
    assert seek < n;
    LastSeekIs(entries, n - 1, seek);
  }

  /** Each seek point has a window, from its own preamble run to the next one's. */
  lemma SeekWindow(entries: seq<Entry>, seek: nat)
    requires NonDecreasing(entries) && NoSeekPreamble(entries) && SeeksApart(entries)
    requires seek < |entries| && entries[seek].seekPoint
    ensures var start := PreambleStart(entries, seek, 0);
            && GopStart(entries, entries[seek].t) == Some(start)
            && WindowEnd(entries, start) == PreambleStart(entries, NextSeek(entries, seek + 1), 0)
  {
    SeekSelected(entries, seek);
    NextSeekIs(entries, PreambleStart(entries, seek, 0), seek);
    PreambleFloor(entries, NextSeek(entries, seek + 1), seek + 1);
  }

  /** Every window is the window of a seek point. */
  lemma StartsAtSeek(entries: seq<Entry>, start: nat) returns (seek: nat)
    requires NonDecreasing(entries) && NoSeekPreamble(entries) && IsStart(entries, start)
    ensures seek < |entries| && entries[seek].seekPoint && start == PreambleStart(entries, seek, 0)
  {
    var position :| GopStart(entries, position) == Some(start);
    seek := Governing(entries, position);
  }

  /** The window of an earlier seek point ends before that of a later one starts. */
  lemma WindowsApart(entries: seq<Entry>, a: nat, b: nat)
    requires NoSeekPreamble(entries) && a < b < |entries| && entries[a].seekPoint && entries[b].seekPoint
    ensures PreambleStart(entries, NextSeek(entries, a + 1), 0) <= PreambleStart(entries, b, 0)
  {
    var next := NextSeek(entries, a + 1);
    assert next <= b;
    if next < b { RunStopsAtSeek(entries, next, b); }
  }

  lemma InAtMostOneWindow(entries: seq<Entry>, a: nat, b: nat, i: nat)
    requires NonDecreasing(entries) && NoSeekPreamble(entries) && SeeksApart(entries)
    requires InWindow(entries, a, i) && InWindow(entries, b, i)
    ensures a == b
  {
    var j := StartsAtSeek(entries, a);
    var k := StartsAtSeek(entries, b);
    SeekWindow(entries, j);
    SeekWindow(entries, k);
    if j < k { WindowsApart(entries, j, k); }
    if k < j { WindowsApart(entries, k, j); }
  }

  /** The windows reach from the first one's start to the trailing preamble run. */
  lemma InNoOtherPlace(entries: seq<Entry>, start: nat, i: nat)
    requires NonDecreasing(entries) && NoSeekPreamble(entries) && SeeksApart(entries)
    requires InWindow(entries, start, i)
    ensures FirstStart(entries) <= i < TrailingRun(entries)
  {
    var seek := StartsAtSeek(entries, start);
    SeekWindow(entries, seek);
    var next, first := NextSeek(entries, seek + 1), NextSeek(entries, 0);
    if next < |entries| { RunStopsAtSeek(entries, next, |entries|); }
    if first < seek { RunStopsAtSeek(entries, first, seek); }
  }

  /** The window an entry lies in: that of the next seek point if it belongs to its
      preamble run, else that of the last one. */
  lemma InSomeWindow(entries: seq<Entry>, i: nat) returns (start: nat)
    requires NonDecreasing(entries) && NoSeekPreamble(entries) && SeeksApart(entries)
    requires FirstStart(entries) <= i < TrailingRun(entries)
    ensures InWindow(entries, start, i)
  {
    var next := NextSeek(entries, i);
    if next < |entries| && PreambleStart(entries, next, 0) <= i {
      SeekWindow(entries, next);
      start := PreambleStart(entries, next, 0);
      if NextSeek(entries, next + 1) <= |entries| { RunStopsAtSeek(entries, next, NextSeek(entries, next + 1)); }
    } else {
      if LastSeek(entries, i).None? { NextSeekSkips(entries, 0, i); }
      var seek := LastSeek(entries, i).value;
      NextSeekSkips(entries, seek + 1, i);
      SeekWindow(entries, seek);
      start := PreambleStart(entries, seek, 0);
    }
  }

  lemma {:induction false} NextSeekSkips(entries: seq<Entry>, from: nat, i: nat)
    requires from <= i <= |entries| && forall j :: from <= j < i ==> !entries[j].seekPoint
    ensures NextSeek(entries, from) == NextSeek(entries, i)
    decreases i - from
  {
    if from < i { NextSeekSkips(entries, from + 1, i); }
  }

  /** Windows partition what they reach: every entry from the first window's start on
      lies in exactly one window, unless it is in the preamble run at the very end. */
  lemma EveryEntryInOneWindow(entries: seq<Entry>, i: nat)
    requires NonDecreasing(entries) && NoSeekPreamble(entries) && SeeksApart(entries)
    ensures (exists start :: InWindow(entries, start, i)) <==> FirstStart(entries) <= i < TrailingRun(entries)
    ensures forall a, b :: InWindow(entries, a, i) && InWindow(entries, b, i) ==> a == b
  {
    if FirstStart(entries) <= i < TrailingRun(entries) {
      var start := InSomeWindow(entries, i);
      assert InWindow(entries, start, i);
    }
    forall start | InWindow(entries, start, i)
      ensures FirstStart(entries) <= i < TrailingRun(entries)
    {
      InNoOtherPlace(entries, start, i);
    }
    forall a, b | InWindow(entries, a, i) && InWindow(entries, b, i)
      ensures a == b
    {
      InAtMostOneWindow(entries, a, b, i);
    }
  }

  /** A recording that ends with a preamble message: no window ever holds it. */
  lemma TrailingPreambleIsLost()
    ensures var entries := [Entry(1, true, false), Entry(2, false, true)];
            && GopStart(entries, 2) == Some(0) && Reached(entries, 2) == 2 && WindowEnd(entries, 0) == 1
            && forall start :: !InWindow(entries, start, 1)
  {
    var entries := [Entry(1, true, false), Entry(2, false, true)];
    assert ReachedFrom(entries, 2, 2) == 2 && ReachedFrom(entries, 2, 1) == 2;
    assert LastSeek(entries, 0) == Some(0) && LastSeek(entries, 1) == Some(0);
    assert NextSeek(entries, 2) == 2 && NextSeek(entries, 1) == 2;
    assert PreambleStart(entries, 2, 1) == 1;
    assert PreambleStart(entries, 1, 0) == 1 && TrailingRun(entries) == 1;
    EveryEntryInOneWindow(entries, 1);
  }
}
