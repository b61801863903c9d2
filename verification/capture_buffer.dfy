/** Everything captured from the bus, bounded by bytes and by time, evicting oldest. */
module CaptureBuffer {
  import opened Buckets
  import Modular

  datatype Message = Message(logTime: nat, payload: nat, key: nat, schema: nat, origin: nat) {
    /** Payload plus the owned strings; the last four fields are their lengths. */
    function Size(): nat {
      payload + key + schema + origin
    }
  }

  /** Zero disables a bound; `maxSpan` is the time bound in nanoseconds. */
  datatype Bounds = Bounds(maxBytes: nat, maxSpan: nat)

  function TotalSize(messages: seq<Message>): nat {
    if messages == [] then 0 else messages[0].Size() + TotalSize(messages[1..])
  }

  ghost predicate NonDecreasing(messages: seq<Message>) {
    forall i, j :: 0 <= i < j < |messages| ==> messages[i].logTime <= messages[j].logTime
  }

  function Newest(messages: seq<Message>): nat
    requires messages != []
  {
    messages[|messages| - 1].logTime
  }

  // ------------------------------------------------------------- what is kept

  predicate BytesFit(messages: seq<Message>, b: Bounds) {
    b.maxBytes == 0 || TotalSize(messages) <= b.maxBytes
  }

  /** Whether a message is recent enough, measured back from the newest one. */
  predicate Recent(m: Message, newest: nat, b: Bounds) {
    b.maxSpan == 0 || newest <= m.logTime + b.maxSpan
  }

  /** How many leading messages must go for the bytes to fit. */
  function DropForBytes(messages: seq<Message>, b: Bounds): (n: nat)
    ensures n <= |messages| && BytesFit(messages[n..], b)
  {
    if BytesFit(messages, b) then 0 else
      assert messages != [];
      var n := 1 + DropForBytes(messages[1..], b);
      assert messages[n..] == messages[1..][n - 1..];
      n
  }

  /** How many leading messages are too old for the newest one. */
  function DropForAge(messages: seq<Message>, newest: nat, b: Bounds): (n: nat)
    ensures n <= |messages|
    ensures forall i :: 0 <= i < n ==> !Recent(messages[i], newest, b)
    ensures n < |messages| ==> Recent(messages[n], newest, b)
  {
    if messages == [] || Recent(messages[0], newest, b) then 0
    else
      var n := 1 + DropForAge(messages[1..], newest, b);
      assert forall i :: 0 < i < n ==> messages[i] == messages[1..][i - 1];
      n
  }

  function Evicted(messages: seq<Message>, b: Bounds): (n: nat)
    ensures n <= |messages|
  {
    var n := DropForBytes(messages, b);
    if n == |messages| then n
    else n + DropForAge(messages[n..], Newest(messages), b)
  }

  // ----------------------------------------------------------- reading a window

  const WORD := 0x1_0000_0000_0000_0000
  const COUNTER := 0x1_0000_0000

  /** The first message after `t`, counting from `k`. */
  function FirstPast(messages: seq<Message>, t: int, k: nat := 0): (n: nat)
    requires k <= |messages|
    ensures k <= n <= |messages|
    ensures forall i :: k <= i < n ==> messages[i].logTime <= t
    ensures n < |messages| ==> messages[n].logTime > t
    decreases |messages| - k
  {
    if k == |messages| || messages[k].logTime > t then k else FirstPast(messages, t, k + 1)
  }

  /** The messages from `t0` on among the first `n`. */
  function Since(messages: seq<Message>, t0: nat, n: nat): seq<Message>
    requires n <= |messages|
  {
    if n == 0 then []
    else if messages[n - 1].logTime < t0 then Since(messages, t0, n - 1)
    else Since(messages, t0, n - 1) + [messages[n - 1]]
  }

  /** What a walk that stops at the first message past `t1` comes across. */
  function Visited(messages: seq<Message>, t0: nat, t1: nat): seq<Message> {
    Since(messages, t0, FirstPast(messages, t1))
  }

  lemma {:induction false} SinceIsSlice(messages: seq<Message>, t0: nat, from: nat, n: nat)
    requires n <= |messages| && from <= |messages|
    requires forall i :: 0 <= i < |messages| ==> (messages[i].logTime < t0 <==> i < from)
    ensures Since(messages, t0, n) == if n <= from then [] else messages[from..n]
  {
    if n > 0 {
      SinceIsSlice(messages, t0, from, n - 1);
      assert n > from ==> messages[from..n] == messages[from..n - 1] + [messages[n - 1]];
    }
  }

  /** With times in order, stopping early misses nothing: the walk visits exactly the
      messages inside the window, which lie together. */
  lemma VisitedIsWindow(messages: seq<Message>, t0: nat, t1: nat) returns (from: nat, end: nat)
    requires NonDecreasing(messages) && t0 <= t1
    ensures from <= end <= |messages| && Visited(messages, t0, t1) == messages[from..end]
    ensures forall i :: 0 <= i < |messages| ==> (t0 <= messages[i].logTime <= t1 <==> from <= i < end)
  {
    from, end := FirstPast(messages, t0 - 1), FirstPast(messages, t1);
    assert from < |messages| ==> forall i :: from <= i < |messages| ==> messages[from].logTime <= messages[i].logTime;
    assert end < |messages| ==> forall i :: end <= i < |messages| ==> messages[end].logTime <= messages[i].logTime;
    SinceIsSlice(messages, t0, from, end);
  }

  /** The bucket of a time in the window, the product taken in 64 bits. */
  function BucketOf(t: nat, t0: nat, t1: nat, buckets: nat): (k: nat)
    requires t0 <= t && t0 < t1 && buckets > 0
    ensures k < buckets
  {
    var bucket := (t - t0) * buckets % WORD / (t1 - t0);
    if bucket >= buckets then buckets - 1 else bucket
  }

  function Bucketing(t0: nat, t1: nat, buckets: nat): Message -> nat
    requires t0 < t1 && buckets > 0
  {
    (m: Message) => if t0 <= m.logTime then BucketOf(m.logTime, t0, t1, buckets) else 0
  }

  /** Short of the 64-bit limit a bucket covers its own slice of the window and no
      other, the last one closed at the top. */
  lemma BucketCovers(t: nat, t0: nat, t1: nat, buckets: nat, k: nat)
    requires t0 <= t <= t1 && t0 < t1 && k < buckets && (t1 - t0) * buckets < WORD
    ensures BucketOf(t, t0, t1, buckets) == k <==>
            k * (t1 - t0) <= (t - t0) * buckets && ((t - t0) * buckets < (k + 1) * (t1 - t0) || k == buckets - 1)
  {
    var x, span := (t - t0) * buckets, t1 - t0;
    MulMonotone(t - t0, span, buckets);
    assert x % WORD == x;
    QuotientAtLeast(x, span, k);
    QuotientAtLeast(x, span, k + 1);
  }

  lemma QuotientAtLeast(x: nat, d: nat, k: nat)
    requires d > 0
    ensures x / d >= k <==> k * d <= x
  {
    var q := x / d;
    assert x == q * d + x % d;
    if k <= q { MulMonotone(k, q, d); } else { MulMonotone(q + 1, k, d); }
  }

  lemma MulMonotone(a: nat, b: nat, n: nat)
    requires a <= b
    ensures a * n <= b * n
  {
    assert (b - a) * n >= 0;
  }

  ghost predicate Counts(out: seq<nat>, counted: seq<Message>, t0: nat, t1: nat)
    requires t0 < t1 && |out| > 0
  {
    forall k :: 0 <= k < |out| ==> out[k] == |Pick(counted, Bucketing(t0, t1, |out|), k)| % COUNTER
  }

  lemma CountsOneMore(out: seq<nat>, m: Message, t0: nat, t1: nat, counted: seq<Message>)
    requires t0 < t1 && |out| > 0 && t0 <= m.logTime && Counts(out, counted, t0, t1)
    ensures var k := BucketOf(m.logTime, t0, t1, |out|);
            Counts(out[k := (out[k] + 1) % COUNTER], counted + [m], t0, t1)
  {
    var place, c := Bucketing(t0, t1, |out|), BucketOf(m.logTime, t0, t1, |out|);
    var out' := out[c := (out[c] + 1) % COUNTER];
    forall k | 0 <= k < |out|
      ensures out'[k] == |Pick(counted + [m], place, k)| % COUNTER
    {
      PickSnoc(counted, m, place, k);
      assert out[k] == |Pick(counted, place, k)| % COUNTER;
      Modular.ModSucc(|Pick(counted, place, k)|, COUNTER);
    }
  }

  /** The body of the histogram loop. */
  method CountOne(out: array<nat>, m: Message, t0: nat, t1: nat, ghost counted: seq<Message>)
    requires t0 < t1 && out.Length > 0 && t0 <= m.logTime && Counts(out[..], counted, t0, t1)
    modifies out
    ensures Counts(out[..], counted + [m], t0, t1)
  {
    ghost var was := out[..];
    CountsOneMore(was, m, t0, t1, counted);
    var bucket := BucketOf(m.logTime, t0, t1, out.Length);
    out[bucket] := (out[bucket] + 1) % COUNTER;
    assert out[..] == was[bucket := (was[bucket] + 1) % COUNTER];
  }

  lemma PickNoMore(counted: seq<Message>, t0: nat, t1: nat, buckets: nat, k: nat)
    requires t0 < t1 && k < buckets && |counted| < COUNTER
    ensures |Pick(counted, Bucketing(t0, t1, buckets), k)| % COUNTER == |Pick(counted, Bucketing(t0, t1, buckets), k)|
  {
    var size := |Pick(counted, Bucketing(t0, t1, buckets), k)|;
    Modular.ModUnique(size, COUNTER, 0, size);
  }

  /** As long as they cannot wrap, the counters add up to the number of messages
      counted: each is in one bucket, and no other. */
  lemma CountsSum(out: seq<nat>, counted: seq<Message>, t0: nat, t1: nat)
    requires t0 < t1 && |out| > 0 && Counts(out, counted, t0, t1) && |counted| < COUNTER
    ensures Sum(out) == |counted|
  {
    var place := Bucketing(t0, t1, |out|);
    forall k: nat | k < |out|
      ensures out[k] == |Pick(counted, place, k)|
    {
      PickNoMore(counted, t0, t1, |out|, k);
    }
    CountersAddUp(out, counted, place);
    EveryItemOnce(counted, place, |out|);
  }

  // ------------------------------------------------------------------ object

  class Buffer {
    var messages: seq<Message>
    var bounds: Bounds
    var bytes: nat
    var revision: nat
    var evicted: nat
    var evictedBytes: nat

    ghost predicate Valid()
      reads this
    {
      bytes == TotalSize(messages)
    }

    constructor (bounds: Bounds)
      ensures Valid() && messages == [] && this.bounds == bounds && evicted == evictedBytes == revision == 0
    {
      messages, this.bounds, bytes, revision, evicted, evictedBytes := [], bounds, 0, 0, 0, 0;
    }

    method PopFront()
      requires Valid() && messages != []
      modifies this
      ensures Valid() && messages == old(messages)[1..] && bounds == old(bounds)
      ensures evicted == old(evicted) + 1 && evictedBytes == old(evictedBytes) + old(messages)[0].Size()
      ensures revision == old(revision) + 1
    {
      var size := messages[0].Size();
      bytes := bytes - size;
      evictedBytes := evictedBytes + size;
      evicted := evicted + 1;
      messages := messages[1..];
      revision := revision + 1;
    }

    /** The loop that enforces the byte bound. */
    method EvictForBytes()
      requires Valid()
      modifies this
      ensures Valid() && bounds == old(bounds)
      ensures messages == old(messages)[DropForBytes(old(messages), bounds)..]
      ensures evicted + |messages| == old(evicted) + |old(messages)|
      ensures revision + |messages| == old(revision) + |old(messages)|
      ensures evictedBytes + bytes == old(evictedBytes) + old(bytes)
    {
      ghost var was, n: nat := messages, 0;
      while bounds.maxBytes > 0 && bytes > bounds.maxBytes && messages != []
        invariant Valid() && bounds == old(bounds) && n <= |was| && messages == was[n..]
        invariant n + DropForBytes(messages, bounds) == DropForBytes(was, bounds)
        invariant evicted == old(evicted) + n && revision == old(revision) + n
        invariant evictedBytes + bytes == old(evictedBytes) + old(bytes)
        decreases |messages|
      {
        PopFront();
        n := n + 1;
        assert messages == was[n..];
      }
    }

    /** The loop that enforces the time bound. */
    method EvictForAge()
      requires Valid() && messages != []
      modifies this
      ensures Valid() && bounds == old(bounds)
      ensures messages == old(messages)[DropForAge(old(messages), Newest(old(messages)), bounds)..]
      ensures evicted + |messages| == old(evicted) + |old(messages)|
      ensures revision + |messages| == old(revision) + |old(messages)|
      ensures evictedBytes + bytes == old(evictedBytes) + old(bytes)
    {
      var newest := messages[|messages| - 1].logTime;
      if bounds.maxSpan > 0 && newest > bounds.maxSpan {
        var cutoff := newest - bounds.maxSpan;
        ghost var was, n: nat := messages, 0;
        while messages != [] && messages[0].logTime < cutoff
          invariant Valid() && bounds == old(bounds) && n <= |was| && messages == was[n..]
          invariant n + DropForAge(messages, newest, bounds) == DropForAge(was, newest, bounds)
          invariant evicted == old(evicted) + n && revision == old(revision) + n
          invariant evictedBytes + bytes == old(evictedBytes) + old(bytes)
          decreases |messages|
        {
          PopFront();
          n := n + 1;
          assert messages == was[n..];
        }
      }
    }

    method Evict()
      requires Valid()
      modifies this
      ensures Valid() && bounds == old(bounds)
      ensures messages == old(messages)[Evicted(old(messages), bounds)..]
      ensures evicted + |messages| == old(evicted) + |old(messages)|
      ensures revision + |messages| == old(revision) + |old(messages)|
      ensures evictedBytes + bytes == old(evictedBytes) + old(bytes)
    {
      ghost var was := messages;
      EvictForBytes();
      ghost var n := DropForBytes(was, bounds);
      if messages != [] {
        assert Newest(messages) == Newest(was);
        EvictForAge();
        assert messages == was[n..][Evicted(was, bounds) - n..] == was[Evicted(was, bounds)..];
      }
    }

    method Push(message: Message)
      requires Valid()
      modifies this
      ensures Valid() && bounds == old(bounds)
      ensures messages == Kept(old(messages), message, bounds)
      ensures evicted + |messages| == old(evicted) + |old(messages)| + 1
      ensures evictedBytes + bytes == old(evictedBytes) + old(bytes) + message.Size()
    {
      BytesSnoc(messages, message);
      bytes := bytes + message.Size();
      messages := messages + [message];
      revision := revision + 1;
      Evict();
    }

    method SetBounds(bounds: Bounds)
      requires Valid()
      modifies this
      ensures Valid() && this.bounds == bounds
      ensures messages == old(messages)[Evicted(old(messages), bounds)..]
      ensures evicted + |messages| == old(evicted) + |old(messages)|
    {
      this.bounds := bounds;
      Evict();
    }

    /** The messages handed to a visitor, in the order they are handed over. */
    method ForEach(t0: nat, t1: nat) returns (visited: seq<Message>)
      ensures visited == Visited(messages, t0, t1)
    {
      visited := [];
      ghost var stop := FirstPast(messages, t1);
      var i := 0;
      while i < |messages|
        invariant 0 <= i <= stop && visited == Since(messages, t0, i)
      {
        if messages[i].logTime > t1 {
          break;
        }
        if messages[i].logTime >= t0 {
          visited := visited + [messages[i]];
        }
        i := i + 1;
      }
    }

    /** A histogram of the window: 32-bit counters, one per bucket. */
    method Density(t0: nat, t1: nat, buckets: nat) returns (out: array<nat>)
      ensures fresh(out) && out.Length == buckets
      ensures t1 <= t0 ==> forall k :: 0 <= k < buckets ==> out[k] == 0
      ensures t0 < t1 && buckets > 0 ==> Counts(out[..], Visited(messages, t0, t1), t0, t1)
      ensures t0 < t1 && buckets > 0 && |Visited(messages, t0, t1)| < COUNTER ==>
                Sum(out[..]) == |Visited(messages, t0, t1)|
    {
      out := new nat[buckets](_ => 0);
      if buckets == 0 || t1 <= t0 {
        return;
      }
      ghost var stop := FirstPast(messages, t1);
      var i := 0;
      while i < |messages|
        invariant 0 <= i <= stop && Counts(out[..], Since(messages, t0, i), t0, t1)
      {
        if messages[i].logTime > t1 {
          break;
        }
        if messages[i].logTime >= t0 {
          CountOne(out, messages[i], t0, t1, Since(messages, t0, i));
        }
        i := i + 1;
      }
      if |Visited(messages, t0, t1)| < COUNTER {
        CountsSum(out[..], Visited(messages, t0, t1), t0, t1);
      }
    }

    /** The eviction counters are lifetime totals and stay. */
    method Clear()
      requires Valid()
      modifies this
      ensures Valid() && messages == [] && bounds == old(bounds)
      ensures evicted == old(evicted) && evictedBytes == old(evictedBytes)
    {
      messages, bytes, revision := [], 0, revision + 1;
    }
  }

  /** What one push leaves of a buffer. */
  function Kept(messages: seq<Message>, m: Message, b: Bounds): seq<Message> {
    var all := messages + [m];
    all[Evicted(all, b)..]
  }

  function KeptAll(messages: seq<Message>, pushes: seq<Message>, b: Bounds): seq<Message>
    decreases |pushes|
  {
    if pushes == [] then messages else KeptAll(Kept(messages, pushes[0], b), pushes[1..], b)
  }

  lemma {:induction false} BytesAppend(a: seq<Message>, c: seq<Message>)
    ensures TotalSize(a + c) == TotalSize(a) + TotalSize(c)
  {
    if a == [] {
      assert a + c == c;
    } else {
      assert (a + c)[0] == a[0] && (a + c)[1..] == a[1..] + c;
      BytesAppend(a[1..], c);
    }
  }

  lemma BytesSnoc(a: seq<Message>, m: Message)
    ensures TotalSize(a + [m]) == TotalSize(a) + m.Size()
  {
    BytesAppend(a, [m]);
  }

  // --------------------------------------------------- online against offline

  /** A suffix that fits both bounds, the time bound measured from the newest of all. */
  ghost predicate Fits(all: seq<Message>, from: nat, b: Bounds)
    requires from <= |all|
  {
    && BytesFit(all[from..], b)
    && (forall i :: from <= i < |all| ==> Recent(all[i], Newest(all), b))
  }

  /** `from` starts the longest suffix that fits. */
  ghost predicate Longest(all: seq<Message>, from: nat, b: Bounds) {
    && from <= |all| && Fits(all, from, b)
    && (forall k :: 0 <= k < from ==> !Fits(all, k, b))
  }

  lemma {:induction false} SuffixLighter(messages: seq<Message>, from: nat, to: nat)
    requires from <= to <= |messages|
    ensures TotalSize(messages[to..]) <= TotalSize(messages[from..])
  {
    assert messages[from..] == messages[from..to] + messages[to..];
    BytesAppend(messages[from..to], messages[to..]);
  }

  lemma {:induction false} DropForBytesLeast(messages: seq<Message>, b: Bounds, k: nat)
    requires k < DropForBytes(messages, b)
    ensures !BytesFit(messages[k..], b)
    decreases k
  {
    if k == 0 {
      assert messages[0..] == messages;
    } else {
      DropForBytesLeast(messages[1..], b, k - 1);
      assert messages[k..] == messages[1..][k - 1..];
    }
  }

  lemma DropForAgeLeast(messages: seq<Message>, n: nat, b: Bounds)
    requires n < |messages| && NonDecreasing(messages)
    ensures var newest := Newest(messages);
            var from := n + DropForAge(messages[n..], newest, b);
            && (forall i :: from <= i < |messages| ==> Recent(messages[i], newest, b))
            && (forall i :: n <= i < from ==> !Recent(messages[i], newest, b))
  {
    var newest := Newest(messages);
    var from := n + DropForAge(messages[n..], newest, b);
    forall i | n <= i < from
      ensures !Recent(messages[i], newest, b)
    {
      assert messages[i] == messages[n..][i - n];
    }
    if from < |messages| {
      assert messages[from] == messages[n..][from - n];
    }
  }

  /** One eviction leaves the longest suffix that fits. */
  lemma EvictedIsLongest(messages: seq<Message>, b: Bounds)
    requires NonDecreasing(messages) && messages != []
    ensures Longest(messages, Evicted(messages, b), b)
  {
    var n, e := DropForBytes(messages, b), Evicted(messages, b);
    if n < |messages| {
      DropForAgeLeast(messages, n, b);
    }
    SuffixLighter(messages, n, e);
    forall k | 0 <= k < e
      ensures !Fits(messages, k, b)
    {
      if k < n {
        DropForBytesLeast(messages, b, k);
      } else {
        assert !Recent(messages[k], Newest(messages), b);
      }
    }
  }

  /** What did not fit before a later message arrived does not fit after it. */
  lemma StillTooMuch(all: seq<Message>, m: Message, k: nat, b: Bounds)
    requires k < |all| && NonDecreasing(all + [m]) && !Fits(all, k, b)
    ensures !Fits(all + [m], k, b)
  {
    var all' := all + [m];
    assert all'[k..] == all[k..] + [m];
    BytesSnoc(all[k..], m);
    if BytesFit(all[k..], b) {
      var i :| k <= i < |all| && !Recent(all[i], Newest(all), b);
      assert all'[|all| - 1].logTime <= all'[|all|].logTime;
      assert !Recent(all'[i], Newest(all'), b);
    }
  }

  /** Fitting is about the suffix alone. */
  lemma FitsInSuffix(all: seq<Message>, from: nat, k: nat, b: Bounds)
    requires from <= k <= |all|
    ensures Fits(all, k, b) <==> Fits(all[from..], k - from, b)
  {
    var x := all[from..];
    assert all[k..] == x[k - from..];
    if k < |all| {
      assert Newest(all) == Newest(x);
      assert forall i :: k <= i < |all| ==> all[i] == x[i - from];
      assert forall i :: k - from <= i < |x| ==> x[i] == all[i + from];
    }
  }

  lemma LongestInSuffix(all: seq<Message>, from: nat, e: nat, b: Bounds)
    requires from <= |all| && Longest(all[from..], e, b)
    requires forall k :: 0 <= k < from ==> !Fits(all, k, b)
    ensures Longest(all, from + e, b)
  {
    FitsInSuffix(all, from, from + e, b);
    forall k | from <= k < from + e
      ensures !Fits(all, k, b)
    {
      FitsInSuffix(all, from, k, b);
    }
  }

  /** Pushing onto the longest suffix that fits leaves the longest suffix that fits. */
  lemma KeptIsLongest(all: seq<Message>, from: nat, m: Message, b: Bounds)
    requires NonDecreasing(all + [m]) && Longest(all, from, b)
    ensures var from' := from + Evicted(all[from..] + [m], b);
            Longest(all + [m], from', b) && Kept(all[from..], m, b) == (all + [m])[from'..]
  {
    var all', x := all + [m], all[from..] + [m];
    assert x == all'[from..];
    EvictedIsLongest(x, b);
    forall k | 0 <= k < from
      ensures !Fits(all', k, b)
    {
      StillTooMuch(all, m, k, b);
    }
    LongestInSuffix(all', from, Evicted(x, b), b);
    assert x[Evicted(x, b)..] == all'[from + Evicted(x, b)..];
  }

  lemma {:induction false} KeptAllSnoc(messages: seq<Message>, pushes: seq<Message>, m: Message, b: Bounds)
    ensures KeptAll(messages, pushes + [m], b) == Kept(KeptAll(messages, pushes, b), m, b)
    decreases |pushes|
  {
    if pushes == [] {
      assert (pushes + [m])[1..] == [];
    } else {
      assert (pushes + [m])[0] == pushes[0] && (pushes + [m])[1..] == pushes[1..] + [m];
      KeptAllSnoc(Kept(messages, pushes[0], b), pushes[1..], m, b);
    }
  }

  lemma OnlineStep(all: seq<Message>, before: nat, m: Message, b: Bounds) returns (from: nat)
    requires NonDecreasing(all + [m]) && Longest(all, before, b) && KeptAll([], all, b) == all[before..]
    ensures Longest(all + [m], from, b) && KeptAll([], all + [m], b) == (all + [m])[from..]
  {
    from := before + Evicted(all[before..] + [m], b);
    KeptAllSnoc([], all, m, b);
    KeptIsLongest(all, before, m, b);
  }

  /** With fixed bounds and log times that never step back, after any number of pushes
      the buffer holds the longest suffix of everything pushed that fits both bounds:
      evicting as it goes loses nothing that evicting once at the end would keep. */
  lemma {:induction false} OnlineIsOffline(pushes: seq<Message>, b: Bounds) returns (from: nat)
    requires NonDecreasing(pushes)
    ensures Longest(pushes, from, b) && KeptAll([], pushes, b) == pushes[from..]
    decreases |pushes|
  {
    if pushes == [] {
      from := 0;
    } else {
      var all, m := pushes[..|pushes| - 1], pushes[|pushes| - 1];
      assert all + [m] == pushes;
      var before := OnlineIsOffline(all, b);
      from := OnlineStep(all, before, m, b);
    }
  }
}
